/** Splitting and joining text at a separator. */
module Text {

  /** A character put in front of the first piece. */
  function Push(c: char, pieces: seq<string>): (r: seq<string>)
    requires pieces != []
    ensures |r| == |pieces|
  {
    [[c] + pieces[0]] + pieces[1..]
  }

  /** The pieces between the separators: one more than there are separators. */
  function Split(s: string, sep: char): (pieces: seq<string>)
    ensures |pieces| >= 1
  {
    if s == [] then [[]]
    else
      var rest := Split(s[1..], sep);
      if s[0] == sep then [[]] + rest else Push(s[0], rest)
  }

  function Join(pieces: seq<string>, sep: char): string {
    if pieces == [] then []
    else if |pieces| == 1 then pieces[0]
    else pieces[0] + [sep] + Join(pieces[1..], sep)
  }

  function Last(pieces: seq<string>): string
    requires pieces != []
  {
    pieces[|pieces| - 1]
  }

  function Init(pieces: seq<string>): seq<string>
    requires pieces != []
  {
    pieces[..|pieces| - 1]
  }

  lemma JoinPush(c: char, pieces: seq<string>, sep: char)
    requires pieces != []
    ensures Join(Push(c, pieces), sep) == [c] + Join(pieces, sep)
  {
    assert Push(c, pieces)[1..] == pieces[1..];
  }

  lemma JoinCons(pieces: seq<string>, sep: char)
    requires pieces != []
    ensures Join([[]] + pieces, sep) == [sep] + Join(pieces, sep)
  {
    assert ([[]] + pieces)[1..] == pieces;
  }

  /** Splitting is exact: joining gives the text back, and no piece holds a separator. */
  lemma {:induction false} SplitExact(s: string, sep: char)
    ensures Join(Split(s, sep), sep) == s
    ensures forall p :: p in Split(s, sep) ==> sep !in p
  {
    if s != [] {
      SplitExact(s[1..], sep);
      var rest := Split(s[1..], sep);
      assert rest[0] in rest;
      JoinPush(s[0], rest, sep);
      JoinCons(rest, sep);
      hide Join;
      assert s == [s[0]] + s[1..];
    }
  }

  lemma PushInit(c: char, pieces: seq<string>, more: seq<string>)
    requires |pieces| >= 2
    ensures Push(c, Init(pieces) + more) == Init(Push(c, pieces)) + more
    ensures Last(Push(c, pieces)) == Last(pieces)
  {
  }

  lemma SplitCons(c: char, s: string, sep: char)
    ensures Split([c] + s, sep) == if c == sep then [[]] + Split(s, sep) else Push(c, Split(s, sep))
  {
    assert ([c] + s)[1..] == s;
  }

  lemma SplitAppendStep(c: char, a: string, b: string, sep: char)
    requires Split(a + b, sep) == Init(Split(a, sep)) + Split(Last(Split(a, sep)) + b, sep)
    ensures var s := Split([c] + a, sep);
            Split([c] + (a + b), sep) == Init(s) + Split(Last(s) + b, sep)
  {
    hide Split;
    var rest := Split(a, sep);
    var more := Split(Last(rest) + b, sep);
    SplitCons(c, a, sep);
    SplitCons(c, a + b, sep);
    if c == sep {
      assert [[]] + (Init(rest) + more) == Init([[]] + rest) + more;
    } else if |rest| == 1 {
      assert Last(Push(c, rest)) + b == [c] + (Last(rest) + b);
      SplitCons(c, Last(rest) + b, sep);
    } else {
      PushInit(c, rest, more);
    }
  }

  lemma SplitAppendEmpty(b: string, sep: char)
    ensures Init(Split("", sep)) == [] && Last(Split("", sep)) == ""
    ensures Split("" + b, sep) == Init(Split("", sep)) + Split(Last(Split("", sep)) + b, sep)
  {
    var more := Split("" + b, sep);
    assert [] + more == more;
  }

  /** Only the last piece of a text can still grow when more text is appended. */
  lemma {:induction false} SplitAppend(a: string, b: string, sep: char)
    ensures Split(a + b, sep) == Init(Split(a, sep)) + Split(Last(Split(a, sep)) + b, sep)
  {
    hide *;
    if a == [] {
      SplitAppendEmpty(b, sep);
    } else {
      var c, t := a[0], a[1..];
      SplitAppend(t, b, sep);
      SplitAppendStep(c, t, b, sep);
      assert a == [c] + t;
      assert a + b == [c] + (t + b);
    }
  }

  lemma {:induction false} SplitNone(s: string, sep: char)
    requires sep !in s
    ensures Split(s, sep) == [s]
  {
    if s != [] {
      SplitNone(s[1..], sep);
      assert [s[0]] + s[1..] == s;
    }
  }

  lemma {:induction false} SplitFirst(a: string, b: string, sep: char)
    requires sep !in a
    ensures Split(a + [sep] + b, sep) == [a] + Split(b, sep)
  {
    var s := a + [sep] + b;
    if a == [] {
      assert s[1..] == b;
    } else {
      assert s[1..] == a[1..] + [sep] + b;
      SplitFirst(a[1..], b, sep);
      assert [a[0]] + a[1..] == a;
    }
  }
}
