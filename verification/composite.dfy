/** Composite keys of the ledger's key-value store. A composite key is an
    object type followed by a list of attributes; the store builds it only
    when every attribute is a valid UTF-8 string holding neither the
    smallest code point U+0000 (the separator) nor the largest U+10FFFF.
    UTF-8 validity holds for every Dafny string, so only the two reserved
    code points are checked. */
module CompositeKeys {

  predicate ValidAttribute(s: string) {
    forall i :: 0 <= i < |s| ==> s[i] != '\0' && s[i] != '\U{10FFFF}'
  }

  predicate ValidAttributes(parts: seq<string>) {
    forall i :: 0 <= i < |parts| ==> ValidAttribute(parts[i])
  }
}
