/** Joining recognized lines with a newline, as the handler's `'\n'.join`
    does, and its inverse, splitting a text at every newline. */
module TextLines {

  const Newline: char := '\n'

  /** Total number of characters in all parts. */
  function TotalLength(parts: seq<string>): nat
  {
    if |parts| == 0 then 0 else |parts[0]| + TotalLength(parts[1..])
  }

  /** The parts in order, with one newline between neighbours; no parts give
      the empty text. */
  function Join(parts: seq<string>): (s: string)
    ensures |parts| == 0 ==> s == ""
    ensures |parts| == 1 ==> s == parts[0]
    ensures |s| == TotalLength(parts) + (if |parts| == 0 then 0 else |parts| - 1)
  {
    if |parts| == 0 then ""
    else if |parts| == 1 then parts[0]
    else parts[0] + [Newline] + Join(parts[1..])
  }

  /** The pieces of `s` between newlines, in order; like `str.split('\n')`,
      the empty text gives one empty piece. */
  function Split(s: string): (parts: seq<string>)
    ensures |parts| >= 1
    ensures forall i :: 0 <= i < |parts| ==> Newline !in parts[i]
    decreases |s|
  {
    if |s| == 0 then [""]
    else
      var rest := Split(s[1..]);
      if s[0] == Newline then [""] + rest
      else [[s[0]] + rest[0]] + rest[1..]
  }

  /** Joining two non-empty runs of parts puts one newline between their joins. */
  lemma {:induction false} JoinAppend(a: seq<string>, b: seq<string>)
    requires |a| >= 1 && |b| >= 1
    ensures Join(a + b) == Join(a) + [Newline] + Join(b)
    decreases |a|
  {
    if |a| == 1 {
      assert (a + b)[1..] == b;
    } else {
      assert (a + b)[1..] == a[1..] + b;
      JoinAppend(a[1..], b);
    }
  }

  /** The joined text is empty exactly when there is no part, or one empty part. */
  lemma {:induction false} JoinEmptyIff(parts: seq<string>)
    ensures Join(parts) == "" <==> (|parts| == 0 || parts == [""])
  {
    if |parts| == 1 {
      assert parts == [parts[0]];
    }
  }

  /** Text without a newline is a single piece. */
  lemma {:induction false} SplitNewlineFree(a: string)
    requires Newline !in a
    ensures Split(a) == [a]
    decreases |a|
  {
    if |a| > 0 {
      SplitNewlineFree(a[1..]);
      assert [a[0]] + a[1..] == a;
    }
  }

  /** A newline-free first piece followed by a newline is split off as is. */
  lemma {:induction false} SplitAfterPiece(a: string, b: string)
    requires Newline !in a
    ensures Split(a + [Newline] + b) == [a] + Split(b)
    decreases |a|
  {
    var s := a + [Newline] + b;
    if |a| == 0 {
      assert s[1..] == b;
    } else {
      assert s[1..] == a[1..] + [Newline] + b;
      SplitAfterPiece(a[1..], b);
      assert [a[0]] + a[1..] == a;
    }
  }

  /** Joining the pieces of any text gives the text back. */
  lemma {:induction false} JoinSplit(s: string)
    ensures Join(Split(s)) == s
    decreases |s|
  {
    if |s| > 0 {
      var rest := Split(s[1..]);
      JoinSplit(s[1..]);
      if s[0] == Newline {
        assert ([""] + rest)[1..] == rest;
      } else {
        var parts := [[s[0]] + rest[0]] + rest[1..];
        if |rest| == 1 {
          assert parts == [[s[0]] + rest[0]];
        } else {
          assert parts[1..] == rest[1..];
          assert Join(rest) == rest[0] + [Newline] + Join(rest[1..]);
        }
      }
    }
  }

  /** Splitting the join of at least one newline-free part gives the parts back. */
  lemma {:induction false} SplitJoin(parts: seq<string>)
    requires |parts| >= 1
    requires forall i :: 0 <= i < |parts| ==> Newline !in parts[i]
    ensures Split(Join(parts)) == parts
    decreases |parts|
  {
    if |parts| == 1 {
      SplitNewlineFree(parts[0]);
    } else {
      SplitJoin(parts[1..]);
      SplitAfterPiece(parts[0], Join(parts[1..]));
      assert [parts[0]] + parts[1..] == parts;
    }
  }

  /** A part that holds a newline is split in two again, so the number of
      pieces of a join can exceed the number of parts. */
  lemma SplitJoinOfPartWithNewline()
    ensures |Split(Join(["a\nb"]))| == 2
  {
    SplitAfterPiece("a", "b");
    assert "a\nb" == "a" + [Newline] + "b";
    SplitNewlineFree("b");
  }
}
