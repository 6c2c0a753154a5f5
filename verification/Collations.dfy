/** How a locale orders texts. */
module Collations {

  // A comparison: negative, zero or positive.
  type Collation = (string, string) -> int

  ghost predicate IsCollation(collate: Collation) {
    && (forall a, b :: collate(a, b) <= 0 || collate(b, a) <= 0)
    && (forall a, b, c :: collate(a, b) <= 0 && collate(b, c) <= 0 ==> collate(a, c) <= 0)
  }
}
