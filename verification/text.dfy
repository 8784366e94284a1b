/**
 Character-separated text, as Rust's `str::split` with a one-character pattern sees it:
 every occurrence of the separator ends a piece, so `""` splits into `[""]` and a trailing
 separator yields a trailing empty piece. `Join` puts the separator back.
 */
module Text {

  /** Number of occurrences of `c` in `s`. */
  function Count(s: string, c: char): (n: nat)
    ensures n <= |s|
    ensures n == 0 <==> c !in s
  {
    if |s| == 0 then 0
    else
      assert s == [s[0]] + s[1..];
      (if s[0] == c then 1 else 0) + Count(s[1..], c)
  }

  /** The pieces joined back together with one `c` between neighbours. */
  function Join(pieces: seq<string>, c: char): string
  {
    if |pieces| == 0 then ""
    else if |pieces| == 1 then pieces[0]
    else pieces[0] + [c] + Join(pieces[1..], c)
  }

  /** `s.split(c)`: the maximal separator-free pieces of `s`, in order. */
  function Split(s: string, c: char): (pieces: seq<string>)
    ensures |pieces| == Count(s, c) + 1
    ensures forall i :: 0 <= i < |pieces| ==> c !in pieces[i]
    ensures Join(pieces, c) == s
    decreases |s|
  {
    if |s| == 0 then [""]
    else
      var rest := Split(s[1..], c);
      assert s == [s[0]] + s[1..];
      if s[0] == c then
        assert ([""] + rest)[1..] == rest;
        [""] + rest
      else
        JoinExtendFirst(s[0], rest, c);
        [[s[0]] + rest[0]] + rest[1..]
  }

  /** Prefixing the first piece prefixes the joined text. */
  lemma JoinExtendFirst(ch: char, pieces: seq<string>, c: char)
    requires |pieces| > 0
    ensures Join([[ch] + pieces[0]] + pieces[1..], c) == [ch] + Join(pieces, c)
  {
    var extended := [[ch] + pieces[0]] + pieces[1..];
    assert extended[1..] == pieces[1..];
  }

  lemma {:induction false} CountAppend(a: string, b: string, c: char)
    ensures Count(a + b, c) == Count(a, c) + Count(b, c)
    decreases |a|
  {
    if |a| == 0 {
      assert a + b == b;
    } else {
      assert (a + b)[1..] == a[1..] + b;
      CountAppend(a[1..], b, c);
    }
  }

  /** A separator-free text is a single piece. */
  lemma {:induction false} SplitWithoutSeparator(s: string, c: char)
    requires c !in s
    ensures Split(s, c) == [s]
    decreases |s|
  {
    if |s| != 0 {
      assert c !in s[1..];
      SplitWithoutSeparator(s[1..], c);
    }
  }

  /** A separator-free first piece is cut off at the first separator. */
  lemma {:induction false} SplitAtFirstSeparator(first: string, rest: string, c: char)
    requires c !in first
    ensures Split(first + [c] + rest, c) == [first] + Split(rest, c)
    decreases |first|
  {
    var s := first + [c] + rest;
    if |first| == 0 {
      assert s[1..] == rest;
    } else {
      assert s[1..] == first[1..] + [c] + rest;
      assert c !in first[1..];
      SplitAtFirstSeparator(first[1..], rest, c);
      var tail := Split(s[1..], c);
      assert tail == [first[1..]] + Split(rest, c);
      assert s[0] == first[0] && s[0] != c;
      assert Split(s, c) == [[s[0]] + tail[0]] + tail[1..];
      assert [s[0]] + tail[0] == first;
      assert tail[1..] == Split(rest, c);
    }
  }

  /** Splitting undoes joining, for separator-free pieces. */
  lemma {:induction false} SplitJoin(pieces: seq<string>, c: char)
    requires |pieces| > 0
    requires forall i :: 0 <= i < |pieces| ==> c !in pieces[i]
    ensures Split(Join(pieces, c), c) == pieces
  {
    if |pieces| == 1 {
      SplitWithoutSeparator(pieces[0], c);
    } else {
      SplitJoin(pieces[1..], c);
      SplitAtFirstSeparator(pieces[0], Join(pieces[1..], c), c);
      assert pieces == [pieces[0]] + pieces[1..];
    }
  }

  /** Joining one more piece on the right appends a separator and that piece. */
  lemma {:induction false} JoinSnoc(pieces: seq<string>, last: string, c: char)
    requires |pieces| > 0
    ensures Join(pieces + [last], c) == Join(pieces, c) + [c] + last
  {
    var ps := pieces + [last];
    assert ps[1..] == pieces[1..] + [last];
    if |pieces| > 1 {
      JoinSnoc(pieces[1..], last, c);
    }
  }

  /** A trailing separator adds exactly one empty piece at the end. */
  lemma SplitTrailingSeparator(s: string, c: char)
    ensures Split(s + [c], c) == Split(s, c) + [""]
  {
    var pieces := Split(s, c) + [""];
    JoinSnoc(Split(s, c), "", c);
    assert Join(pieces, c) == s + [c];
    assert forall i :: 0 <= i < |pieces| ==> c !in pieces[i] by {
      forall i | 0 <= i < |pieces| ensures c !in pieces[i] {
        if i < |pieces| - 1 { assert pieces[i] == Split(s, c)[i]; }
      }
    }
    SplitJoin(pieces, c);
  }
}
