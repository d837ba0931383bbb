/**
 * The shared lookup helpers of `utils/element_utils.py`: each performs one
 * lookup and turns every failure into a plain return value, never raising.
 */
module ElementUtils {

  import opened Dom
  import opened PyText

  /** `get_elements`: the list found (possibly empty), or `[]` on any failure. */
  function GetElements(page: Page, catalog: Catalog, key: string): (r: seq<Scope>)
    ensures key in catalog && page.findAll(catalog[key]).Found? ==> r == page.findAll(catalog[key]).value
    ensures !(key in catalog && page.findAll(catalog[key]).Found?) ==> r == []
  {
    if key in catalog then
      match page.findAll(catalog[key])
      case Found(elements) => elements
      case _ => []
    else []
  }

  /** `get_element_text`: the found node's text stripped; `''` on any failure. */
  function GetElementText(scope: Scope, catalog: Catalog, key: string): (r: string)
    ensures IsStripped(r)
    ensures Locate(scope, catalog, key).Found? ==> r == Strip(Locate(scope, catalog, key).value.text)
    ensures !Locate(scope, catalog, key).Found? ==> r == ""
  {
    match Locate(scope, catalog, key)
    case Found(e) => Strip(e.text)
    case _ => ""
  }

  /**
   * `get_element_attribute`: the attribute exactly as the node holds it (not
   * stripped, `None` when absent); `''` on any failure.
   */
  function GetElementAttribute(scope: Scope, catalog: Catalog, key: string, attribute: string): (r: Value)
    ensures Locate(scope, catalog, key).Found? ==> r == GetAttribute(Locate(scope, catalog, key).value, attribute)
    ensures !Locate(scope, catalog, key).Found? ==> r == Str("")
  {
    match Locate(scope, catalog, key)
    case Found(e) => GetAttribute(e, attribute)
    case _ => Str("")
  }

  /**
   * The text helper answers `''` exactly when the node is missing, the lookup
   * failed, or the node's text is whitespace only: these cases cannot be told apart.
   */
  lemma TextEmptyIff(scope: Scope, catalog: Catalog, key: string)
    ensures GetElementText(scope, catalog, key) == "" <==>
      !Locate(scope, catalog, key).Found? || AllSpace(Locate(scope, catalog, key).value.text)
  {
    if Locate(scope, catalog, key).Found? {
      StripEmptyIff(Locate(scope, catalog, key).value.text);
    }
  }
}
