/** The comparator strategies for books: by title, by author, the natural
    order, the reversal of a comparator and the sequential composition of two. */
module BookComparators {
  import JavaText
  import opened Books

  /** A comparison strategy, built by wrapping strategies inside others. */
  datatype Comparator =
    | ByTitle                                          // KomparatorPoNaslovu
    | ByAuthor                                         // KomparatorPoAutoru
    | Natural                                          // PrirodniKomparator
    | Reversed(original: Comparator)                   // ObrnutiKomparator
    | Composite(primary: Comparator, secondary: Comparator)  // KompozitniKomparator

  /** `KomparatorPoAutoruIPotomNaslovu`: the composite of by-author and by-title. */
  const AuthorThenTitle: Comparator := Composite(ByAuthor, ByTitle)

  /** What `c.compare(b1, b2)` returns. */
  function Compare(c: Comparator, b1: Book, b2: Book): int {
    match c
    case ByTitle => JavaText.CompareTo(b1.title, b2.title)
    case ByAuthor => JavaText.CompareTo(b1.author, b2.author)
    case Natural => b1.CompareTo(b2)
    case Reversed(original) => -Compare(original, b1, b2)
    case Composite(primary, secondary) =>
      var r := Compare(primary, b1, b2);
      if r == 0 then Compare(secondary, b1, b2) else r
  }

  /** Reversal negates exactly, so reversing twice gives back every result. */
  lemma ReversedNegates(c: Comparator, b1: Book, b2: Book)
    ensures Compare(Reversed(c), b1, b2) == -Compare(c, b1, b2)
    ensures Compare(Reversed(Reversed(c)), b1, b2) == Compare(c, b1, b2)
  {
  }

  /** The composite answers with the primary result unless that is zero. */
  lemma CompositeCases(p: Comparator, s: Comparator, b1: Book, b2: Book)
    ensures Compare(p, b1, b2) != 0 ==> Compare(Composite(p, s), b1, b2) == Compare(p, b1, b2)
    ensures Compare(p, b1, b2) == 0 ==> Compare(Composite(p, s), b1, b2) == Compare(s, b1, b2)
  {
  }

  /** Nesting composites is associative. */
  lemma CompositeAssociative(a: Comparator, b: Comparator, c: Comparator, b1: Book, b2: Book)
    ensures Compare(Composite(Composite(a, b), c), b1, b2)
         == Compare(Composite(a, Composite(b, c)), b1, b2)
  {
  }

  /** The fixed author-then-title comparator agrees with the natural order. */
  lemma AuthorThenTitleIsNatural(b1: Book, b2: Book)
    ensures Compare(AuthorThenTitle, b1, b2) == Compare(Natural, b1, b2)
  {
  }

  // ---------------------------------------------------------------------------
  // Every strategy is a total preorder
  // ---------------------------------------------------------------------------

  lemma {:induction false} CompareSelf(c: Comparator, b: Book)
    ensures Compare(c, b, b) == 0
  {
    match c
    case ByTitle => JavaText.CompareToZeroIffEqual(b.title, b.title);
    case ByAuthor => JavaText.CompareToZeroIffEqual(b.author, b.author);
    case Natural => CompareToZeroIff(b, b);
    case Reversed(o) => CompareSelf(o, b);
    case Composite(p, s) => CompareSelf(p, b); CompareSelf(s, b);
  }

  /** Swapping the books negates the result exactly, for every strategy. */
  lemma {:induction false} CompareAntisymmetric(c: Comparator, b1: Book, b2: Book)
    ensures Compare(c, b1, b2) == -Compare(c, b2, b1)
  {
    match c
    case ByTitle => JavaText.CompareToAntisymmetric(b1.title, b2.title);
    case ByAuthor => JavaText.CompareToAntisymmetric(b1.author, b2.author);
    case Natural => Books.CompareToAntisymmetric(b1, b2);
    case Reversed(o) => CompareAntisymmetric(o, b1, b2);
    case Composite(p, s) => CompareAntisymmetric(p, b1, b2); CompareAntisymmetric(s, b1, b2);
  }

  /** "Not after" is transitive, for every strategy. */
  lemma {:induction false} CompareTransitive(c: Comparator, b1: Book, b2: Book, b3: Book)
    requires Compare(c, b1, b2) <= 0 && Compare(c, b2, b3) <= 0
    ensures Compare(c, b1, b3) <= 0
  {
    match c
    case ByTitle => JavaText.CompareToTransitive(b1.title, b2.title, b3.title);
    case ByAuthor => JavaText.CompareToTransitive(b1.author, b2.author, b3.author);
    case Natural => Books.CompareToTransitive(b1, b2, b3);
    case Reversed(o) =>
      CompareAntisymmetric(o, b1, b2);
      CompareAntisymmetric(o, b2, b3);
      CompareAntisymmetric(o, b1, b3);
      CompareTransitive(o, b3, b2, b1);
    case Composite(p, s) =>
      CompareAntisymmetric(p, b1, b2);
      CompareAntisymmetric(p, b2, b3);
      CompareAntisymmetric(p, b1, b3);
      CompareTransitive(p, b1, b2, b3);
      if Compare(p, b1, b2) == 0 && Compare(p, b2, b3) == 0 {
        CompareTransitive(s, b1, b2, b3);
      } else if Compare(p, b1, b3) == 0 {
        // then b3 is not after b1, so b2 sits between two equal books
        CompareTransitive(p, b3, b1, b2);
        CompareTransitive(p, b2, b3, b1);
      }
  }
}
