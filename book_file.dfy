/** The book file: the number of books, then for each book its id, title and
    author. Read by `ucitajKnjige`, written by `sacuvajKnjige` and
    `snimiKnjige`. */
module BookFile {
  import opened Tokens
  import opened Books

  // ---------------------------------------------------------------------------
  // The layout written
  // ---------------------------------------------------------------------------

  function BookFields(b: Book): seq<Token> {
    [Num(b.id), Text(b.title), Text(b.author)]
  }

  /** The field groups of `bs`, in order. */
  function BookGroups(bs: seq<Book>): (r: seq<Token>)
    ensures |r| == 3 * |bs|
  {
    if |bs| == 0 then [] else BookFields(bs[0]) + BookGroups(bs[1..])
  }

  /** The whole file for `bs`: the count, then the groups. */
  function BooksFile(bs: seq<Book>): seq<Token> {
    [Num(|bs|)] + BookGroups(bs)
  }

  lemma {:induction false} BookGroupsAppend(bs: seq<Book>, b: Book)
    ensures BookGroups(bs + [b]) == BookGroups(bs) + BookFields(b)
  {
    if |bs| > 0 {
      assert (bs + [b])[1..] == bs[1..] + [b];
      BookGroupsAppend(bs[1..], b);
    } else {
      assert bs + [b] == [b];
    }
  }

  // ---------------------------------------------------------------------------
  // The layout read
  // ---------------------------------------------------------------------------

  /** One field group: `readInt` for the id, `readLine` for title and author. */
  function ReadBook(ts: seq<Token>, pos: nat): (r: Result<Read<Book>>)
    ensures r.Ok? ==> r.value.next == pos + 3
  {
    var id :- ReadInt(ts, pos);
    var title :- ReadLine(ts, id.next);
    var author :- ReadLine(ts, title.next);
    Ok(Read(Book(id.value, title.value, author.value), author.next))
  }

  /** The books of a file: a leading count, then that many field groups. */
  function ParseBooks(ts: seq<Token>): Result<seq<Book>> {
    ReadCounted(ReadBook, ts)
  }

  /** `ucitajKnjige`: no books when the file cannot be opened. */
  function LoadedBooks(source: Option<seq<Token>>): (r: Result<seq<Book>>)
    ensures source.None? ==> r == Err(Unavailable)
  {
    match source
    case None => Err(Unavailable)
    case Some(ts) => ParseBooks(ts)
  }

  // ---------------------------------------------------------------------------
  // Write, then read
  // ---------------------------------------------------------------------------

  /** The `k`-th group of the layout holds the fields of `bs[k]`. */
  lemma {:induction false} BookGroupsAt(bs: seq<Book>, k: nat)
    requires k < |bs|
    ensures BookGroups(bs)[3 * k..3 * k + 3] == BookFields(bs[k])
    decreases k
  {
    var g := BookGroups(bs);
    assert g == BookFields(bs[0]) + BookGroups(bs[1..]);
    if k > 0 {
      BookGroupsAt(bs[1..], k - 1);
      assert g[3 * k..3 * k + 3] == BookGroups(bs[1..])[3 * (k - 1)..3 * (k - 1) + 3];
    } else {
      assert g[..3] == BookFields(bs[0]);
    }
  }

  /** After a count, the `k`-th group of the layout of `bs` reads as `bs[k]`,
      whatever follows. */
  lemma ReadBookOfGroups(n: int, bs: seq<Book>, rest: seq<Token>, k: nat)
    requires k < |bs|
    ensures ReadBook([Num(n)] + BookGroups(bs) + rest, 1 + 3 * k) == Ok(Read(bs[k], 1 + 3 * (k + 1)))
  {
    BookGroupsAt(bs, k);
    ReadBookInMiddle([Num(n)], BookGroups(bs), rest, 3 * k, bs[k]);
  }

  /** A group in the middle of a token sequence reads as its book. */
  lemma ReadBookInMiddle(pre: seq<Token>, g: seq<Token>, post: seq<Token>, i: nat, b: Book)
    requires i + 3 <= |g| && g[i..i + 3] == BookFields(b)
    ensures ReadBook(pre + g + post, |pre| + i) == Ok(Read(b, |pre| + i + 3))
  {
    assert g[i] == g[i..i + 3][0] && g[i + 1] == g[i..i + 3][1] && g[i + 2] == g[i..i + 3][2];
    TokenOfMiddle(pre, g, post, i);
    TokenOfMiddle(pre, g, post, i + 1);
    TokenOfMiddle(pre, g, post, i + 2);
    ReadBookFields(pre + g + post, |pre| + i, b);
  }

  lemma ReadBookFields(ts: seq<Token>, pos: nat, b: Book)
    requires pos + 3 <= |ts|
    requires ts[pos] == Num(b.id) && ts[pos + 1] == Text(b.title) && ts[pos + 2] == Text(b.author)
    ensures ReadBook(ts, pos) == Ok(Read(b, pos + 3))
  {
  }

  /** Reading what was written for `bs`, whatever follows it, gives back `bs`. */
  lemma BooksRoundTrip(bs: seq<Book>, rest: seq<Token>)
    ensures ParseBooks(BooksFile(bs) + rest) == Ok(bs)
  {
    var ts := BooksFile(bs) + rest;
    var ps := seq(|bs| + 1, k => 1 + 3 * k);
    forall k | 0 <= k < |bs| ensures ReadBook(ts, ps[k]) == Ok(Read(bs[k], ps[k + 1])) {
      ReadBookOfGroups(|bs|, bs, rest, k);
    }
    ReadGroupsOf(ReadBook, ts, ps, bs, []);
    assert ReadInt(ts, 0) == Ok(Read(|bs|, 1));
  }

  /** A book id that is not a number, in any group before the count is
      reached, fails the whole read: no partial result. */
  lemma MalformedIdFails(n: int, bs: seq<Book>, t: Token, rest: seq<Token>)
    requires |bs| < n && !t.Num?
    ensures ParseBooks([Num(n)] + BookGroups(bs) + ([t] + rest)) == Err(WrongType)
  {
    var g := BookGroups(bs);
    forall k | 0 <= k < |bs| ensures g[3 * k..3 * k + 3] == BookFields(bs[k]) {
      BookGroupsAt(bs, k);
    }
    FailsAfterGroups(n, g, bs, t, rest);
  }

  /** `MalformedIdFails`, for any token sequence `g` laid out as the groups of `bs`. */
  lemma FailsAfterGroups(n: int, g: seq<Token>, bs: seq<Book>, t: Token, rest: seq<Token>)
    requires |bs| < n && !t.Num? && |g| == 3 * |bs|
    requires forall k :: 0 <= k < |bs| ==> g[3 * k..3 * k + 3] == BookFields(bs[k])
    ensures ParseBooks([Num(n)] + g + ([t] + rest)) == Err(WrongType)
  {
    var ts := [Num(n)] + g + ([t] + rest);
    var ps := seq(|bs| + 1, k => 1 + 3 * k);
    forall k | 0 <= k < |bs| ensures ReadBook(ts, ps[k]) == Ok(Read(bs[k], ps[k + 1])) {
      ReadBookInMiddle([Num(n)], g, [t] + rest, 3 * k, bs[k]);
    }
    ReadBookWrongId([Num(n)] + g, t, rest);
    ReadGroupsFailsAt(ReadBook, ts, ps, bs, n, []);
    assert ReadInt(ts, 0) == Ok(Read(n, 1));
  }

  /** A group whose first token is not a number fails with a wrong type. */
  lemma ReadBookWrongId(pre: seq<Token>, t: Token, rest: seq<Token>)
    requires !t.Num?
    ensures ReadBook(pre + ([t] + rest), |pre|) == Err(WrongType)
  {
    assert (pre + ([t] + rest))[|pre|] == t;
  }

  /** The groups of `bs` standing at `pos`, cut after `k` tokens, fail to read. */
  lemma {:induction false} ReadBooksAtCut(ts: seq<Token>, pos: nat, bs: seq<Book>, k: nat, acc: seq<Book>)
    requires k < 3 * |bs| && |ts| == pos + k
    requires ts[pos..] == BookGroups(bs)[..k]
    ensures ReadGroups(ReadBook, ts, pos, |bs|, acc) == Err(EndOfInput)
    decreases |bs|
  {
    var b := bs[0];
    assert BookGroups(bs) == BookFields(b) + BookGroups(bs[1..]);
    if k < 3 {
      if k > 0 { assert ts[pos] == ts[pos..][0] == Num(b.id); }
      if k > 1 { assert ts[pos + 1] == ts[pos..][1] == Text(b.title); }
      assert ReadBook(ts, pos) == Err(EndOfInput);
    } else {
      assert ts[pos] == ts[pos..][0] && ts[pos + 1] == ts[pos..][1] && ts[pos + 2] == ts[pos..][2];
      assert ReadBook(ts, pos) == Ok(Read(b, pos + 3));
      assert ts[pos + 3..] == ts[pos..][3..];
      ReadBooksAtCut(ts, pos + 3, bs[1..], k - 3, acc + [b]);
    }
  }

  /** A written file cut short after its count fails with end of input: no
      partial result. */
  lemma TruncatedFileFails(bs: seq<Book>, k: nat)
    requires 1 <= k < |BooksFile(bs)|
    ensures ParseBooks(BooksFile(bs)[..k]) == Err(EndOfInput)
  {
    var ts := BooksFile(bs)[..k];
    assert ts[0] == Num(|bs|);
    assert ts[1..] == BookGroups(bs)[..k - 1];
    ReadBooksAtCut(ts, 1, bs, k - 1, []);
  }

  // ---------------------------------------------------------------------------
  // The methods
  // ---------------------------------------------------------------------------

  /** `ucitajKnjige`: read the count, make an array of that size and fill it
      one field group at a time. */
  method LoadBooks(source: Option<seq<Token>>) returns (r: Result<array<Book>>)
    ensures r.Err? <==> LoadedBooks(source).Err?
    ensures r.Err? ==> r.error == LoadedBooks(source).error
    ensures r.Ok? ==> fresh(r.value) && r.value[..] == LoadedBooks(source).value
  {
    if source.None? {
      return Err(Unavailable);
    }
    var ts := source.value;
    var count := ReadInt(ts, 0);
    if count.Err? {
      return Err(count.error);
    }
    var br := count.value.value;
    if br < 0 {
      return Err(NegativeCount);
    }
    var rez := new Book[br];
    var pos := count.value.next;
    for i := 0 to br
      invariant ReadGroups(ReadBook, ts, pos, br - i, rez[..i]) == ParseBooks(ts)
    {
      var b := ReadBook(ts, pos);
      if b.Err? {
        return Err(b.error);
      }
      ReadGroupsStep(ReadBook, ts, pos, br - i, rez[..i]);
      rez[i] := b.value.value;
      assert rez[..i + 1] == rez[..i] + [b.value.value];
      pos := b.value.next;
    }
    assert rez[..br] == rez[..];
    return Ok(rez);
  }

  /** The writing loop shared by `sacuvajKnjige` and `snimiKnjige`: the length,
      then id, title and author of each book in array order. */
  method WriteBooks(a: array<Book>) returns (out: seq<Token>)
    ensures out == BooksFile(a[..])
  {
    out := [Num(a.Length)];
    for i := 0 to a.Length
      invariant out == [Num(a.Length)] + BookGroups(a[..i])
    {
      BookGroupsAppend(a[..i], a[i]);
      assert a[..i + 1] == a[..i] + [a[i]];
      out := out + [Num(a[i].id), Text(a[i].title), Text(a[i].author)];
    }
    assert a[..a.Length] == a[..];
  }

  /** `sacuvajKnjige`: nothing is written and false is returned when the file
      cannot be opened for writing. */
  method SaveBooks(writable: bool, a: array<Book>) returns (saved: bool, out: seq<Token>)
    ensures saved == writable
    ensures saved ==> out == BooksFile(a[..]) && ParseBooks(out) == Ok(a[..])
    ensures !saved ==> out == []
  {
    if !writable {
      return false, [];
    }
    out := WriteBooks(a);
    BooksRoundTrip(a[..], []);
    assert out + [] == out;
    saved := true;
  }
}
