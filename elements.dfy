/** The parsed pattern document: an element tree whose attribute maps are ordered dictionaries. */
module Elements {
  import opened Wrappers
  import opened OrderedMaps

  /** `element.attrib`: attribute name to value, in document order. */
  type Attrs = OMap<string>

  /** One XML element: its tag, its attributes and its children in document order. */
  datatype Element = Element(tag: string, attrs: Attrs, children: seq<Element>)

  /** `attrs.get(name)` */
  function Lookup(a: Attrs, name: string): Option<string> {
    if name in a.m then Some(a.m[name]) else None
  }

  predicate StartsWith(s: string, prefix: string) {
    |prefix| <= |s| && s[..|prefix|] == prefix
  }

  /** `re.fullmatch(r'[0-9.]+', s)` */
  predicate AllDigitsDots(s: string) {
    |s| > 0 && forall i :: 0 <= i < |s| ==> ('0' <= s[i] <= '9' || s[i] == '.')
  }
}
