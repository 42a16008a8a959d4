/**
  String helpers shared by the models: whitespace trimming (Python's
  `str.strip()`, JavaScript's `String.prototype.trim`), splitting on one
  separator character (`String.prototype.split(",")`) and splitting text
  into lines on `\r?\n`.
 */
module Text {

  /** The ASCII whitespace both Python's strip() and JavaScript's trim() remove. */
  predicate IsSpace(c: char) {
    c == ' ' || c == '\t' || c == '\n' || c == '\r' || c == 11 as char || c == 12 as char
  }

  predicate AllSpace(s: string) {
    forall i :: 0 <= i < |s| ==> IsSpace(s[i])
  }

  /** `s` without its leading whitespace. */
  function TrimStart(s: string): (r: string)
    ensures |r| <= |s| && r == s[|s| - |r|..]
    ensures AllSpace(s[..|s| - |r|])
    ensures r == [] || !IsSpace(r[0])
  {
    if s != [] && IsSpace(s[0]) then
      var r := TrimStart(s[1..]);
      assert s[..|s| - |r|] == [s[0]] + s[1..][..|s| - 1 - |r|];
      r
    else
      s
  }

  /** `s` without its trailing whitespace. */
  function TrimEnd(s: string): (r: string)
    ensures |r| <= |s| && r == s[..|r|]
    ensures AllSpace(s[|r|..])
    ensures r == [] || !IsSpace(r[|r| - 1])
  {
    if s != [] && IsSpace(s[|s| - 1]) then
      var r := TrimEnd(s[..|s| - 1]);
      assert s[|r|..] == s[..|s| - 1][|r|..] + [s[|s| - 1]];
      r
    else
      s
  }

  /** `s` without leading and trailing whitespace; empty exactly when `s` is blank. */
  function Trim(s: string): (r: string)
    ensures r == [] <==> AllSpace(s)
    ensures r == [] || (!IsSpace(r[0]) && !IsSpace(r[|r| - 1]))
  {
    var t := TrimStart(s);
    var r := TrimEnd(t);
    assert r == [] ==> AllSpace(s) by {
      if r == [] {
        assert s == s[..|s| - |t|] + t;
        assert t == t[|r|..];
      }
    }
    r
  }

  /** A string that neither starts nor ends with whitespace is its own trim. */
  lemma TrimOfTrimmed(s: string)
    requires s == [] || (!IsSpace(s[0]) && !IsSpace(s[|s| - 1]))
    ensures Trim(s) == s
  {
  }

  /** The first index of `c` in `s`, or `|s|` when there is none. */
  function IndexOf(s: string, c: char): (i: nat)
    ensures i <= |s| && (i < |s| ==> s[i] == c)
    ensures forall j :: 0 <= j < i ==> s[j] != c
  {
    if s == [] then 0 else if s[0] == c then 0 else 1 + IndexOf(s[1..], c)
  }

  /** The parts joined back together with `sep` between them. */
  function Join(parts: seq<string>, sep: char): string
    requires |parts| >= 1
  {
    if |parts| == 1 then parts[0] else parts[0] + [sep] + Join(parts[1..], sep)
  }

  /**
    Splits `s` at every occurrence of `sep`, as `s.split(sep)` does in
    JavaScript: the parts never contain the separator and there is always
    at least one (`JoinSplit` shows that nothing is lost).
   */
  function Split(s: string, sep: char): (parts: seq<string>)
    ensures |parts| >= 1
    ensures forall i :: 0 <= i < |parts| ==> sep !in parts[i]
    decreases |s|
  {
    var i := IndexOf(s, sep);
    if i == |s| then
      assert sep !in s;
      [s]
    else
      [s[..i]] + Split(s[i + 1..], sep)
  }

  /** Joining the parts of a split gives back the text. */
  lemma {:induction false} JoinSplit(s: string, sep: char)
    ensures Join(Split(s, sep), sep) == s
    decreases |s|
  {
    var i := IndexOf(s, sep);
    if i < |s| {
      var rest := s[i + 1..];
      SplitAt(s, sep);
      JoinCons(s[..i], Split(rest, sep), sep);
      JoinSplit(rest, sep);
      Reassemble(s, i);
    }
  }

  /** One step of `Split`: the text before the first separator, then the rest split. */
  lemma SplitAt(s: string, sep: char)
    requires IndexOf(s, sep) < |s|
    ensures var i := IndexOf(s, sep);
            Split(s, sep) == [s[..i]] + Split(s[i + 1..], sep)
  {
  }

  /** One step of `Join`. */
  lemma JoinCons(head: string, parts: seq<string>, sep: char)
    requires |parts| >= 1
    ensures Join([head] + parts, sep) == head + [sep] + Join(parts, sep)
  {
    assert ([head] + parts)[1..] == parts;
  }

  /** A sequence is the part before index `i`, the element there and the part after. */
  lemma Reassemble<T>(s: seq<T>, i: nat)
    requires i < |s|
    ensures s == s[..i] + [s[i]] + s[i + 1..]
  {
  }

  /** Splitting text built by `Join` gives back the parts it was built from. */
  lemma {:induction false} SplitJoin(parts: seq<string>, sep: char)
    requires |parts| >= 1
    requires forall i :: 0 <= i < |parts| ==> sep !in parts[i]
    ensures Split(Join(parts, sep), sep) == parts
  {
    var p := parts[0];
    if |parts| == 1 {
      assert IndexOf(p, sep) == |p|;
    } else {
      var s := Join(parts, sep);
      var tail := Join(parts[1..], sep);
      assert s == p + [sep] + tail;
      assert s[|p|] == sep;
      assert IndexOf(s, sep) == |p| by {
        forall j | 0 <= j < |p| ensures s[j] != sep { assert s[j] == p[j]; }
      }
      assert s[..|p|] == p;
      assert s[|p| + 1..] == tail;
      SplitJoin(parts[1..], sep);
    }
  }

  /** `p` without one trailing carriage return. */
  function DropCR(p: string): string {
    if |p| > 0 && p[|p| - 1] == '\r' then p[..|p| - 1] else p
  }

  /**
    The pieces of `s` between matches of the regular expression `\r?\n`:
    splitting on `\n` and dropping the `\r` that ends every piece followed
    by a newline.
   */
  function SplitLines(s: string): (lines: seq<string>)
    ensures |lines| == |Split(s, '\n')| >= 1
    ensures forall i :: 0 <= i < |lines| ==> '\n' !in lines[i]
    ensures lines[|lines| - 1] == Split(s, '\n')[|lines| - 1]
  {
    var parts := Split(s, '\n');
    var lines := seq(|parts|, i requires 0 <= i < |parts| =>
                   if i < |parts| - 1 then DropCR(parts[i]) else parts[i]);
    assert forall i :: 0 <= i < |lines| ==> '\n' !in lines[i] by {
      forall i | 0 <= i < |lines| ensures '\n' !in lines[i] {
        assert '\n' !in parts[i];
        if i < |parts| - 1 && |parts[i]| > 0 && parts[i][|parts[i]| - 1] == '\r' {
          assert forall k :: 0 <= k < |lines[i]| ==> lines[i][k] == parts[i][k];
        }
      }
    }
    lines
  }

  /** The text ends in a line break (`\n`, which covers `\r\n`). */
  predicate EndsWithNewline(s: string) {
    |s| > 0 && s[|s| - 1] == '\n'
  }

  /** Text that ends in a newline splits into lines the last of which is empty. */
  lemma {:induction false} LastPieceAfterNewline(s: string)
    requires EndsWithNewline(s)
    ensures Split(s, '\n')[|Split(s, '\n')| - 1] == ""
    decreases |s|
  {
    var i := IndexOf(s, '\n');
    var rest := s[i + 1..];
    SplitAt(s, '\n');
    Regroup(s[..i], Split(s, '\n'), Split(rest, '\n'), []);
    if rest != [] {
      assert rest[|rest| - 1] == s[|s| - 1];
      LastPieceAfterNewline(rest);
    } else {
      assert IndexOf(rest, '\n') == 0;
    }
  }

  /** The last piece of a split is the text after the last separator: a suffix of `s`. */
  lemma {:induction false} LastPieceIsSuffix(s: string, sep: char)
    ensures var last := Split(s, sep)[|Split(s, sep)| - 1];
            |last| <= |s| && last == s[|s| - |last|..]
    decreases |s|
  {
    var i := IndexOf(s, sep);
    if i < |s| {
      var rest := s[i + 1..];
      SplitAt(s, sep);
      LastPieceIsSuffix(rest, sep);
      var pr := Split(rest, sep);
      Regroup(s[..i], Split(s, sep), pr, []);
      SuffixOfDrop(s, i + 1, |pr[|pr| - 1]|);
    }
  }

  /** A suffix of the part after index `k` is a suffix of the whole. */
  lemma SuffixOfDrop<T>(s: seq<T>, k: nat, n: nat)
    requires k <= |s| && n <= |s| - k
    ensures s[k..][|s| - k - n..] == s[|s| - n..]
  {
  }

  /**
    Splitting `x + y` gives the pieces of `x` that a separator ended,
    followed by the pieces of the last, unended piece of `x` continued by
    `y`.
   */
  lemma {:induction false} SplitAppend(x: string, y: string, sep: char)
    ensures var px := Split(x, sep);
            Split(x + y, sep) == px[..|px| - 1] + Split(px[|px| - 1] + y, sep)
    decreases |x|
  {
    var i := IndexOf(x, sep);
    if i < |x| {
      var rest := x[i + 1..];
      SplitAround(x, y, x[..i], rest, sep);
      SplitAppend(rest, y, sep);
      var px, pr := Split(x, sep), Split(rest, sep);
      var tail := Split(pr[|pr| - 1] + y, sep);
      assert Split(x + y, sep) == [x[..i]] + (pr[..|pr| - 1] + tail);
      Regroup(x[..i], px, pr, tail);
    } else {
      var px := Split(x, sep);
      assert px == [x];
      assert px[..|px| - 1] == [] && px[|px| - 1] == x;
    }
  }

  /** Splitting at the first separator of `x`, with or without `y` after it. */
  lemma SplitAround(x: string, y: string, head: string, rest: string, sep: char)
    requires x == head + [sep] + rest && sep !in head
    ensures Split(x, sep) == [head] + Split(rest, sep)
    ensures Split(x + y, sep) == [head] + Split(rest + y, sep)
  {
    var xy := x + y;
    assert xy == head + [sep] + (rest + y);
    assert xy[|head|] == x[|head|] == sep;
    assert forall j :: 0 <= j < |head| ==> xy[j] == x[j] == head[j];
    assert IndexOf(x, sep) == IndexOf(xy, sep) == |head|;
    assert x[..|head|] == xy[..|head|] == head;
    assert x[|head| + 1..] == rest && xy[|head| + 1..] == rest + y;
  }

  /** Dropping the last element commutes with putting one in front. */
  lemma Regroup<T>(head: T, whole: seq<T>, rest: seq<T>, tail: seq<T>)
    requires whole == [head] + rest && |rest| >= 1
    ensures whole[|whole| - 1] == rest[|rest| - 1]
    ensures [head] + (rest[..|rest| - 1] + tail) == whole[..|whole| - 1] + tail
  {
    assert whole[..|whole| - 1] == [head] + rest[..|rest| - 1];
  }
}
