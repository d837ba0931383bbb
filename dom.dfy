/**
 * The browser, seen from the scraper: every lookup the scraper makes is
 * answered by an oracle with one of four outcomes, mirroring what Selenium
 * either returns or raises.
 */
module Dom {

  /** Outcome of one lookup: a value, `NoSuchElementException`, `TimeoutException`, or any other error. */
  datatype Lookup<T> = Found(value: T) | NotFound | Timeout | OtherError

  /** A located DOM node: its rendered text and its attributes. */
  datatype Element = Element(text: string, attributes: map<string, string>)

  /** `find_element(By.CSS_SELECTOR, css)` under one node (the page or a listing item). */
  type Scope = string -> Lookup<Element>

  /** The loaded page: single-node lookups and `find_elements` list lookups. */
  datatype Page = Page(find: Scope, findAll: string -> Lookup<seq<Scope>>)

  /** The selector catalog, `css_selectors.json`: selector key to CSS expression. */
  type Catalog = map<string, string>

  /** A value in a scraped record: a Python `str` or `None`. */
  datatype Value = Str(s: string) | Null

  /** An exception that escapes the function that raised it. */
  datatype Fault = KeyError(key: string) | TypeError | DriverError

  /** What a Python call does: return a value or raise. */
  datatype Attempt<T> = Returned(value: T) | Raised(fault: Fault)

  /**
   * Looking a selector key up in the catalog and then in the scope, inside a
   * `try` whose generic handler also catches the `KeyError` of a missing key.
   */
  function Locate(scope: Scope, catalog: Catalog, key: string): Lookup<Element>
  {
    if key in catalog then scope(catalog[key]) else OtherError
  }

  /**
   * `WebDriverWait(...).until(presence_of_element_located(...))`: a node that
   * never appears within the timeout is reported as `TimeoutException`.
   */
  function Wait<T>(o: Lookup<T>): Lookup<T>
  {
    if o.NotFound? then Timeout else o
  }

  /** `element.get_attribute(name)`: `None` when the node has no such attribute. */
  function GetAttribute(e: Element, name: string): Value
  {
    if name in e.attributes then Str(e.attributes[name]) else Null
  }
}
