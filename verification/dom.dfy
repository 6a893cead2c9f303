/**
 The page as the views see it: each element, by id, has an inline
 `style.display` of `'block'` or `'none'`. Elements whose display was never
 set are absent from the map.
 */
module Dom {

  datatype Display = Block | Hidden

  type Page = map<string, Display>

  /** The element's inline display is set to `block`. An element whose
      display was never set counts as not visible here, although a browser
      would show it; every id the views' contracts speak of is given a
      display first. */
  predicate Visible(page: Page, id: string) {
    id in page && page[id] == Block
  }

  /** The ids among `ids` whose element is shown. */
  function VisibleAmong(page: Page, ids: seq<string>): set<string> {
    set id | id in ids && Visible(page, id)
  }
}
