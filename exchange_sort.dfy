/** The exchange sort `sortirajNiz` and the sort-option switch of the book
    program's `main`. The sort is specified by `ExchangeSorted`, a function
    that performs the same comparisons and swaps; the properties of the result
    are lemmas about that function. */
module ExchangeSort {
  import opened Books
  import opened BookComparators

  // ---------------------------------------------------------------------------
  // The algorithm as a function
  // ---------------------------------------------------------------------------

  /** One step of the inner loop: `s[j]` and `s[i]` trade places when `s[j]`
      comes after `s[i]`. */
  function Step(c: Comparator, s: seq<Book>, i: nat, j: nat): (r: seq<Book>)
    requires j < i < |s|
    ensures |r| == |s|
  {
    if Compare(c, s[j], s[i]) > 0 then Swap(s, i, j) else s
  }

  /** `s` with the books at `j` and `i` traded. */
  function Swap(s: seq<Book>, i: nat, j: nat): (r: seq<Book>)
    requires j < i < |s|
    ensures |r| == |s|
  {
    s[j := s[i]][i := s[j]]
  }

  /** The inner loop for the end index `i`, from `j` up to `i - 1`. */
  function InnerPass(c: Comparator, s: seq<Book>, i: nat, j: nat): (r: seq<Book>)
    requires j <= i < |s|
    ensures |r| == |s|
    decreases i - j
  {
    if j == i then s else InnerPass(c, Step(c, s, i, j), i, j + 1)
  }

  /** The outer loop from the end index `i` down to 1. */
  function OuterPasses(c: Comparator, s: seq<Book>, i: int): (r: seq<Book>)
    requires -1 <= i < |s|
    ensures |r| == |s|
    decreases i
  {
    if i <= 0 then s else OuterPasses(c, InnerPass(c, s, i, 0), i - 1)
  }

  /** What `sortirajNiz(niz, c)` leaves in the array. */
  function ExchangeSorted(c: Comparator, s: seq<Book>): (r: seq<Book>)
    ensures |r| == |s|
  {
    OuterPasses(c, s, |s| - 1)
  }

  // ---------------------------------------------------------------------------
  // sortirajNiz
  // ---------------------------------------------------------------------------

  /** Sorts `a` in place with the exchange sort: for `i` from the last index
      down to 1, the inner loop `RaiseLargest` brings a book that no book
      below `i` comes after to index `i`. */
  method SortArray(a: array<Book>, c: Comparator)
    modifies a
    ensures a[..] == ExchangeSorted(c, old(a[..]))
    ensures multiset(a[..]) == multiset(old(a[..]))
    ensures Sorted(c, a[..])
    ensures a.Length <= 1 ==> a[..] == old(a[..])
  {
    var i := a.Length - 1;
    while i > 0
      invariant -1 <= i < a.Length
      invariant OuterPasses(c, a[..], i) == ExchangeSorted(c, old(a[..]))
    {
      RaiseLargest(a, c, i);
      i := i - 1;
    }
    ExchangeSortedPermutes(c, old(a[..]));
    ExchangeSortedSorts(c, old(a[..]));
  }

  /** The inner loop of `sortirajNiz` for the end index `i`: for `j` from 0
      up to `i - 1`, swap `a[j]` and `a[i]` whenever `a[j]` comes after
      `a[i]`. */
  method RaiseLargest(a: array<Book>, c: Comparator, i: nat)
    requires i < a.Length
    modifies a
    ensures a[..] == InnerPass(c, old(a[..]), i, 0)
  {
    var j := 0;
    while j < i
      invariant 0 <= j <= i
      invariant InnerPass(c, a[..], i, j) == InnerPass(c, old(a[..]), i, 0)
    {
      ghost var before := a[..];
      if Compare(c, a[j], a[i]) > 0 {
        var tmp := a[j];
        a[j] := a[i];
        a[i] := tmp;
      }
      assert a[..] == Step(c, before, i, j);
      j := j + 1;
    }
  }

  // ---------------------------------------------------------------------------
  // The result is a permutation
  // ---------------------------------------------------------------------------

  lemma {:induction false} InnerPassPermutes(c: Comparator, s: seq<Book>, i: nat, j: nat)
    requires j <= i < |s|
    ensures multiset(InnerPass(c, s, i, j)) == multiset(s)
    decreases i - j
  {
    if j < i {
      var t := Step(c, s, i, j);
      assert InnerPass(c, s, i, j) == InnerPass(c, t, i, j + 1);
      StepPermutes(c, s, i, j);
      InnerPassPermutes(c, t, i, j + 1);
    }
  }

  lemma StepPermutes(c: Comparator, s: seq<Book>, i: nat, j: nat)
    requires j < i < |s|
    ensures multiset(Step(c, s, i, j)) == multiset(s)
  {
    if Compare(c, s[j], s[i]) > 0 {
      assert Step(c, s, i, j) == Swap(s, i, j);
      SwapPermutes(s, i, j);
    }
  }

  lemma SwapPermutes(s: seq<Book>, i: nat, j: nat)
    requires j < i < |s|
    ensures multiset(Swap(s, i, j)) == multiset(s)
  {
    var u := s[j := s[i]];
    assert multiset(u) == multiset(s) - multiset{s[j]} + multiset{s[i]};
    assert multiset(u[i := s[j]]) == multiset(u) - multiset{u[i]} + multiset{s[j]};
  }

  lemma {:induction false} OuterPassesPermutes(c: Comparator, s: seq<Book>, i: int)
    requires -1 <= i < |s|
    ensures multiset(OuterPasses(c, s, i)) == multiset(s)
    decreases i
  {
    if i > 0 {
      InnerPassPermutes(c, s, i, 0);
      OuterPassesPermutes(c, InnerPass(c, s, i, 0), i - 1);
    }
  }

  /** For every comparator the sorted sequence holds exactly the books of the
      input, as often as they occur there. */
  lemma ExchangeSortedPermutes(c: Comparator, s: seq<Book>)
    ensures multiset(ExchangeSorted(c, s)) == multiset(s)
  {
    OuterPassesPermutes(c, s, |s| - 1);
  }

  // ---------------------------------------------------------------------------
  // The result is sorted
  // ---------------------------------------------------------------------------

  /** No book comes after a later one. */
  ghost predicate Sorted(c: Comparator, s: seq<Book>) {
    forall x, y :: 0 <= x < y < |s| ==> Compare(c, s[x], s[y]) <= 0
  }

  /** The books at indices `i` and above are in order. */
  ghost predicate SortedFrom(c: Comparator, s: seq<Book>, i: int) {
    forall x, y :: i <= x < y < |s| && 0 <= x ==> Compare(c, s[x], s[y]) <= 0
  }

  /** No book at an index up to `i` comes after a book beyond `i`. */
  ghost predicate Bounded(c: Comparator, s: seq<Book>, i: int) {
    forall x, y :: 0 <= x <= i < y < |s| ==> Compare(c, s[x], s[y]) <= 0
  }

  /** One step keeps `s[i]` not before the books already passed, now one more,
      keeps the books up to `i` below the ones beyond it and touches nothing
      beyond `i`. */
  lemma StepRaisesLargest(c: Comparator, s: seq<Book>, i: nat, j: nat)
    requires j < i < |s|
    requires forall k :: 0 <= k < j ==> Compare(c, s[k], s[i]) <= 0
    requires Bounded(c, s, i)
    ensures var t := Step(c, s, i, j);
      && (forall k :: 0 <= k <= j ==> Compare(c, t[k], t[i]) <= 0)
      && Bounded(c, t, i)
      && (forall k :: i < k < |s| ==> t[k] == s[k])
  {
    var t := Step(c, s, i, j);
    if Compare(c, s[j], s[i]) > 0 {
      CompareAntisymmetric(c, s[j], s[i]);
      forall k | 0 <= k < j ensures Compare(c, t[k], t[i]) <= 0 {
        CompareTransitive(c, s[k], s[i], s[j]);
      }
      forall x, y | 0 <= x <= i < y < |t| ensures Compare(c, t[x], t[y]) <= 0 {
        assert t[y] == s[y];
        assert t[x] == s[if x == j then i else if x == i then j else x];
      }
    }
  }

  /** After the inner loop for `i`, `s[i]` is not before any book below it;
      the books below and at `i` stay below the ones beyond `i`, which are
      untouched. */
  lemma {:induction false} InnerPassRaisesLargest(c: Comparator, s: seq<Book>, i: nat, j: nat)
    requires j <= i < |s|
    requires forall k :: 0 <= k < j ==> Compare(c, s[k], s[i]) <= 0
    requires Bounded(c, s, i)
    ensures var r := InnerPass(c, s, i, j);
      && (forall k :: 0 <= k < i ==> Compare(c, r[k], r[i]) <= 0)
      && Bounded(c, r, i)
      && (forall k :: i < k < |s| ==> r[k] == s[k])
    decreases i - j
  {
    if j < i {
      var t := Step(c, s, i, j);
      assert InnerPass(c, s, i, j) == InnerPass(c, t, i, j + 1);
      StepRaisesLargest(c, s, i, j);
      InnerPassRaisesLargest(c, t, i, j + 1);
    }
  }

  lemma {:induction false} OuterPassesSort(c: Comparator, s: seq<Book>, i: int)
    requires -1 <= i < |s|
    requires Bounded(c, s, i) && SortedFrom(c, s, i + 1)
    ensures Sorted(c, OuterPasses(c, s, i))
    decreases i
  {
    if i > 0 {
      var r := InnerPass(c, s, i, 0);
      InnerPassRaisesLargest(c, s, i, 0);
      forall x, y | i <= x < y < |r| && 0 <= x ensures Compare(c, r[x], r[y]) <= 0 {
        if x > i {
          assert r[x] == s[x] && r[y] == s[y];
        }
      }
      assert Bounded(c, r, i - 1) by {
        forall x, y | 0 <= x <= i - 1 < y < |r| ensures Compare(c, r[x], r[y]) <= 0 {
          if y > i {
            assert x <= i;
          }
        }
      }
      OuterPassesSort(c, r, i - 1);
    }
  }

  /** For every comparator, the sorted sequence has no book after a later one. */
  lemma ExchangeSortedSorts(c: Comparator, s: seq<Book>)
    ensures Sorted(c, ExchangeSorted(c, s))
  {
    OuterPassesSort(c, s, |s| - 1);
  }

  /** Sequences of length 0 or 1 are left as they are. */
  lemma ShortSequenceUnchanged(c: Comparator, s: seq<Book>)
    requires |s| <= 1
    ensures ExchangeSorted(c, s) == s
  {
  }

  // ---------------------------------------------------------------------------
  // The sort depends only on which comparisons are positive
  // ---------------------------------------------------------------------------

  /** Two comparators that find the same pairs out of order. */
  ghost predicate SameDecisions(c1: Comparator, c2: Comparator) {
    forall b1, b2 :: Compare(c1, b1, b2) > 0 <==> Compare(c2, b1, b2) > 0
  }

  lemma {:induction false} InnerPassSameDecisions(c1: Comparator, c2: Comparator, s: seq<Book>, i: nat, j: nat)
    requires SameDecisions(c1, c2)
    requires j <= i < |s|
    ensures InnerPass(c1, s, i, j) == InnerPass(c2, s, i, j)
    decreases i - j
  {
    if j < i {
      assert Step(c1, s, i, j) == Step(c2, s, i, j);
      InnerPassSameDecisions(c1, c2, Step(c1, s, i, j), i, j + 1);
    }
  }

  lemma {:induction false} OuterPassesSameDecisions(c1: Comparator, c2: Comparator, s: seq<Book>, i: int)
    requires SameDecisions(c1, c2)
    requires -1 <= i < |s|
    ensures OuterPasses(c1, s, i) == OuterPasses(c2, s, i)
    decreases i
  {
    if i > 0 {
      InnerPassSameDecisions(c1, c2, s, i, 0);
      OuterPassesSameDecisions(c1, c2, InnerPass(c1, s, i, 0), i - 1);
    }
  }

  /** Comparators that agree on which pairs are out of order sort every
      sequence identically. */
  lemma ExchangeSortedSameDecisions(c1: Comparator, c2: Comparator, s: seq<Book>)
    requires SameDecisions(c1, c2)
    ensures ExchangeSorted(c1, s) == ExchangeSorted(c2, s)
  {
    OuterPassesSameDecisions(c1, c2, s, |s| - 1);
  }

  /** Sorting with a doubly reversed comparator gives the same sequence. */
  lemma ReversedTwiceSortsAlike(c: Comparator, s: seq<Book>)
    ensures ExchangeSorted(Reversed(Reversed(c)), s) == ExchangeSorted(c, s)
  {
    ExchangeSortedSameDecisions(Reversed(Reversed(c)), c, s);
  }

  /** Nesting composites either way sorts every sequence identically. */
  lemma CompositeNestingSortsAlike(a: Comparator, b: Comparator, c: Comparator, s: seq<Book>)
    ensures ExchangeSorted(Composite(Composite(a, b), c), s)
         == ExchangeSorted(Composite(a, Composite(b, c)), s)
  {
    forall b1, b2 ensures Compare(Composite(Composite(a, b), c), b1, b2)
                       == Compare(Composite(a, Composite(b, c)), b1, b2) {
      CompositeAssociative(a, b, c, b1, b2);
    }
    ExchangeSortedSameDecisions(Composite(Composite(a, b), c), Composite(a, Composite(b, c)), s);
  }

  // ---------------------------------------------------------------------------
  // Concrete inputs
  // ---------------------------------------------------------------------------

  /** Two books by Tolkien sorted by author then title: "Hobbit" before "Rings". */
  lemma TolkienByAuthorThenTitle()
    ensures ExchangeSorted(AuthorThenTitle, [Book(1, "Rings", "Tolkien"), Book(2, "Hobbit", "Tolkien")])
         == [Book(2, "Hobbit", "Tolkien"), Book(1, "Rings", "Tolkien")]
  {
    var rings, hobbit := Book(1, "Rings", "Tolkien"), Book(2, "Hobbit", "Tolkien");
    JavaText.CompareToZeroIffEqual("Tolkien", "Tolkien");
    assert Compare(AuthorThenTitle, rings, hobbit) == 'R' as int - 'H' as int;
    assert InnerPass(AuthorThenTitle, [rings, hobbit], 1, 0) == [hobbit, rings];
  }

  /** The exchange sort is not stable: two books by the same author come out
      in the opposite order when sorted by author. */
  lemma NotStable()
    ensures var x, y, z := Book(1, "T1", "B"), Book(2, "T2", "B"), Book(3, "T3", "A");
      && Compare(ByAuthor, x, y) == 0
      && ExchangeSorted(ByAuthor, [x, y, z]) == [z, y, x]
  {
    var x, y, z := Book(1, "T1", "B"), Book(2, "T2", "B"), Book(3, "T3", "A");
    JavaText.CompareToZeroIffEqual("B", "B");
    assert Compare(ByAuthor, x, z) > 0 && Compare(ByAuthor, y, x) == 0;
    assert InnerPass(ByAuthor, [x, y, z], 2, 0) == [z, y, x];
    assert Compare(ByAuthor, z, y) < 0;
    assert InnerPass(ByAuthor, [z, y, x], 1, 0) == [z, y, x];
  }

  // ---------------------------------------------------------------------------
  // The option switch of main
  // ---------------------------------------------------------------------------

  /** What the book program does with the sort option it reads. */
  datatype SortChoice =
    | LibrarySort                        // Arrays.sort in natural order
    | Exchange(comparator: Comparator)   // sortirajNiz with this comparator
    | Unsorted                           // wrong option: the array is left as it is

  function ChoiceFor(option: int): (r: SortChoice)
    ensures r.Unsorted? <==> !(1 <= option <= 4)
    ensures r.LibrarySort? <==> option == 1
  {
    match option
    case 1 => LibrarySort
    case 2 => Exchange(Reversed(Natural))
    case 3 => Exchange(ByTitle)
    case 4 => Exchange(AuthorThenTitle)
    case _ => Unsorted
  }

  /** Option 2 leaves the books in descending natural order: no book comes
      before a later one by author and title. */
  lemma OptionTwoSortsDescending(s: seq<Book>)
    ensures ChoiceFor(2).Exchange?
    ensures var r := ExchangeSorted(ChoiceFor(2).comparator, s);
      && multiset(r) == multiset(s)
      && forall x, y :: 0 <= x < y < |r| ==> r[x].CompareTo(r[y]) >= 0
  {
    var r := ExchangeSorted(Reversed(Natural), s);
    ExchangeSortedSorts(Reversed(Natural), s);
    ExchangeSortedPermutes(Reversed(Natural), s);
    forall x, y | 0 <= x < y < |r| ensures r[x].CompareTo(r[y]) >= 0 {
      assert Compare(Reversed(Natural), r[x], r[y]) <= 0;
    }
  }

  /** Option 4 orders by author then title, which is the natural order. */
  lemma OptionFourSortsNaturally(s: seq<Book>)
    ensures ChoiceFor(4).Exchange?
    ensures var r := ExchangeSorted(ChoiceFor(4).comparator, s);
      && multiset(r) == multiset(s)
      && forall x, y :: 0 <= x < y < |r| ==> r[x].CompareTo(r[y]) <= 0
  {
    var r := ExchangeSorted(AuthorThenTitle, s);
    ExchangeSortedSorts(AuthorThenTitle, s);
    ExchangeSortedPermutes(AuthorThenTitle, s);
    forall x, y | 0 <= x < y < |r| ensures r[x].CompareTo(r[y]) <= 0 {
      assert Compare(AuthorThenTitle, r[x], r[y]) <= 0;
      AuthorThenTitleIsNatural(r[x], r[y]);
    }
  }

  /** The switch in `main`: sort `a` as the option says. */
  method ApplyOption(a: array<Book>, option: int)
    modifies a
    ensures ChoiceFor(option).Unsorted? ==> a[..] == old(a[..])
    ensures ChoiceFor(option).Exchange? ==>
      a[..] == ExchangeSorted(ChoiceFor(option).comparator, old(a[..]))
    ensures ChoiceFor(option).LibrarySort? ==>
      Sorted(Natural, a[..]) && multiset(a[..]) == multiset(old(a[..]))
  {
    match ChoiceFor(option)
    case LibrarySort =>
      // Arrays.sort is a library sort; only its result is modelled here
      SortArray(a, Natural);
    case Exchange(c) =>
      SortArray(a, c);
    case Unsorted =>
  }
}
