/** The record files as the programs read them: one value per line, read in
    order as an int (`readInt`), a double (`readDouble`) or a line of text
    (`readLine`). A file is a sequence of tokens that records which kind of
    value each line holds; a reader is a position in that sequence. */
module Tokens {

  datatype Token =
    | Num(n: int)       // a line holding an integer
    | Dec(d: real)      // a line holding a decimal fraction
    | Text(s: string)   // any other line

  /** Why a file could not be read. */
  datatype ReadError =
    | Unavailable      // the file cannot be opened
    | WrongType        // a value of another kind stands where one is expected
    | EndOfInput       // the file ends before the value
    | NegativeCount    // the leading count is negative, so no array can be made

  datatype Option<T> = None | Some(value: T)

  datatype Result<T> = Ok(value: T) | Err(error: ReadError) {
    predicate IsFailure() {
      Err?
    }

    function PropagateFailure<U>(): Result<U>
      requires Err?
    {
      Err(error)
    }

    function Extract(): T
      requires Ok?
    {
      value
    }
  }

  /** A value read, and the position of the next token. */
  datatype Read<T> = Read(value: T, next: nat)

  /** `readInt`: the integer at `pos`. */
  function ReadInt(ts: seq<Token>, pos: nat): (r: Result<Read<int>>)
    ensures r.Ok? <==> pos < |ts| && ts[pos].Num?
    ensures r.Ok? ==> r.value == Read(ts[pos].n, pos + 1)
    ensures r.Err? ==> r.error == if pos < |ts| then WrongType else EndOfInput
  {
    if pos >= |ts| then Err(EndOfInput)
    else match ts[pos]
      case Num(n) => Ok(Read(n, pos + 1))
      case _ => Err(WrongType)
  }

  /** `readDouble`: the number at `pos`; an integer line reads as a double too. */
  function ReadDouble(ts: seq<Token>, pos: nat): (r: Result<Read<real>>)
    ensures r.Ok? <==> pos < |ts| && !ts[pos].Text?
    ensures r.Ok? ==> r.value.next == pos + 1
    ensures r.Ok? ==> r.value.value == if ts[pos].Num? then ts[pos].n as real else ts[pos].d
    ensures r.Err? ==> r.error == if pos < |ts| then WrongType else EndOfInput
  {
    if pos >= |ts| then Err(EndOfInput)
    else match ts[pos]
      case Num(n) => Ok(Read(n as real, pos + 1))
      case Dec(d) => Ok(Read(d, pos + 1))
      case Text(_) => Err(WrongType)
  }

  /** `readLine`: the text line at `pos`. */
  function ReadLine(ts: seq<Token>, pos: nat): (r: Result<Read<string>>)
    ensures r.Ok? <==> pos < |ts| && ts[pos].Text?
    ensures r.Ok? ==> r.value == Read(ts[pos].s, pos + 1)
    ensures r.Err? ==> r.error == if pos < |ts| then WrongType else EndOfInput
  {
    if pos >= |ts| then Err(EndOfInput)
    else match ts[pos]
      case Text(s) => Ok(Read(s, pos + 1))
      case _ => Err(WrongType)
  }

  /** `n` more field groups read by `read` from `pos`, appended to the records
      `acc` already read; the first failing group fails the whole read. */
  function ReadGroups<T>(read: (seq<Token>, nat) -> Result<Read<T>>, ts: seq<Token>, pos: nat,
                         n: nat, acc: seq<T>): (r: Result<seq<T>>)
    ensures r.Ok? ==> |r.value| == |acc| + n && r.value[..|acc|] == acc
    decreases n
  {
    if n == 0 then Ok(acc)
    else
      var g :- read(ts, pos);
      ReadGroups(read, ts, g.next, n - 1, acc + [g.value])
  }

  /** A group read successfully moves the reading on past it. */
  lemma ReadGroupsStep<T>(read: (seq<Token>, nat) -> Result<Read<T>>, ts: seq<Token>, pos: nat,
                          n: nat, acc: seq<T>)
    requires n > 0 && read(ts, pos).Ok?
    ensures ReadGroups(read, ts, pos, n, acc)
         == ReadGroups(read, ts, read(ts, pos).value.next, n - 1, acc + [read(ts, pos).value.value])
  {
  }

  /** Groups that read as `vs`, the `k`-th one from `ps[k]` up to `ps[k + 1]`,
      read back as `vs`. */
  lemma {:induction false} ReadGroupsOf<T>(read: (seq<Token>, nat) -> Result<Read<T>>, ts: seq<Token>,
                                           ps: seq<nat>, vs: seq<T>, acc: seq<T>)
    requires |ps| == |vs| + 1
    requires forall k :: 0 <= k < |vs| ==> read(ts, ps[k]) == Ok(Read(vs[k], ps[k + 1]))
    ensures ReadGroups(read, ts, ps[0], |vs|, acc) == Ok(acc + vs)
    decreases |vs|
  {
    if |vs| > 0 {
      assert read(ts, ps[0]) == Ok(Read(vs[0], ps[1]));
      ReadGroupsOf(read, ts, ps[1..], vs[1..], acc + [vs[0]]);
      assert acc + [vs[0]] + vs[1..] == acc + vs;
    } else {
      assert acc + vs == acc;
    }
  }

  /** When the groups before the `|vs|`-th read as `vs` and that group fails,
      the whole read fails with its error, however many groups follow. */
  lemma {:induction false} ReadGroupsFailsAt<T>(read: (seq<Token>, nat) -> Result<Read<T>>, ts: seq<Token>,
                                                ps: seq<nat>, vs: seq<T>, n: nat, acc: seq<T>)
    requires |ps| == |vs| + 1 && |vs| < n
    requires forall k :: 0 <= k < |vs| ==> read(ts, ps[k]) == Ok(Read(vs[k], ps[k + 1]))
    requires read(ts, ps[|vs|]).Err?
    ensures ReadGroups(read, ts, ps[0], n, acc) == Err(read(ts, ps[|vs|]).error)
    decreases |vs|
  {
    if |vs| > 0 {
      assert read(ts, ps[0]) == Ok(Read(vs[0], ps[1]));
      ReadGroupsFailsAt(read, ts, ps[1..], vs[1..], n - 1, acc + [vs[0]]);
    }
  }

  /** A token of the middle part of a file, found at its offset. */
  lemma TokenOfMiddle(pre: seq<Token>, mid: seq<Token>, post: seq<Token>, i: nat)
    requires i < |mid|
    ensures (pre + mid + post)[|pre| + i] == mid[i]
  {
  }

  /** A counted file: a leading count, then that many field groups. Tokens
      after them are not read. */
  function ReadCounted<T>(read: (seq<Token>, nat) -> Result<Read<T>>, ts: seq<Token>): (r: Result<seq<T>>)
    ensures |ts| == 0 ==> r == Err(EndOfInput)
    ensures 0 < |ts| && !ts[0].Num? ==> r == Err(WrongType)
    ensures 0 < |ts| && ts[0].Num? && ts[0].n < 0 ==> r == Err(NegativeCount)
    ensures r.Ok? ==> 0 < |ts| && ts[0] == Num(|r.value|)
  {
    var count :- ReadInt(ts, 0);
    if count.value < 0 then Err(NegativeCount)
    else ReadGroups(read, ts, count.next, count.value, [])
  }
}
