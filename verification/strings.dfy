/** Python string splitting and joining on a one-character separator, as the
    agent uses them: `identity.split("_", 1)` and `"\n".join(texts)`. */
module Strings {
  import opened Results

  /** The index of the first occurrence of `c` in `s`, if any. */
  function FindFirst(s: string, c: char): (r: Option<nat>)
    ensures r.None? <==> c !in s
    ensures r.Some? ==> r.value < |s| && s[r.value] == c && c !in s[..r.value]
  {
    if |s| == 0 then None
    else if s[0] == c then Some(0)
    else match FindFirst(s[1..], c)
      case None => None
      case Some(i) =>
        assert s[..i + 1] == [s[0]] + s[1..][..i];
        Some(i + 1)
  }

  /** `s.split(sep, 1)`: the whole string when `sep` does not occur, otherwise
      the text before the first `sep` and the text after it. */
  function SplitOnce(s: string, sep: char): (parts: seq<string>)
    ensures |parts| == 1 || |parts| == 2
    ensures |parts| == 1 <==> sep !in s
    ensures |parts| == 1 ==> parts[0] == s
    ensures |parts| == 2 ==> sep !in parts[0] && parts[0] + [sep] + parts[1] == s
  {
    match FindFirst(s, sep)
    case None => [s]
    case Some(i) =>
      assert s == s[..i] + [sep] + s[i + 1..];
      [s[..i], s[i + 1..]]
  }

  /** The sum of the lengths of the parts. */
  function TotalLength(parts: seq<string>): nat
  {
    if |parts| == 0 then 0 else |parts[0]| + TotalLength(parts[1..])
  }

  /** `sep.join(parts)`: the parts with one `sep` between each neighbouring
      pair.  No parts give the empty string; otherwise the result begins with
      the first part and is one character longer than the parts together for
      each neighbouring pair. */
  function Join(parts: seq<string>, sep: char): (s: string)
    ensures |parts| == 0 ==> s == ""
    ensures |parts| >= 1 ==> |s| == TotalLength(parts) + |parts| - 1
    ensures |parts| >= 1 ==> s[..|parts[0]|] == parts[0]
  {
    if |parts| == 0 then ""
    else if |parts| == 1 then parts[0]
    else parts[0] + [sep] + Join(parts[1..], sep)
  }

  /** `s.split(sep)`: the maximal `sep`-free pieces of `s`, in order; joining
      them back gives `s`. */
  function Split(s: string, sep: char): (parts: seq<string>)
    decreases |s|
    ensures |parts| >= 1
    ensures forall k :: 0 <= k < |parts| ==> sep !in parts[k]
    ensures Join(parts, sep) == s
  {
    match FindFirst(s, sep)
    case None => [s]
    case Some(i) =>
      var rest := Split(s[i + 1..], sep);
      assert ([s[..i]] + rest)[1..] == rest;
      assert s == s[..i] + [sep] + s[i + 1..];
      [s[..i]] + rest
  }

  /** The first separator in `x + [sep] + rest` is the one after `x`, when `x` has none. */
  lemma {:induction false} FindFirstAfterPrefix(x: string, sep: char, rest: string)
    requires sep !in x
    ensures FindFirst(x + [sep] + rest, sep) == Some(|x|)
    decreases |x|
  {
    var s := x + [sep] + rest;
    if |x| == 0 {
      assert s[0] == sep;
    } else {
      assert s[0] == x[0];
      assert s[1..] == x[1..] + [sep] + rest;
      FindFirstAfterPrefix(x[1..], sep, rest);
    }
  }

  /** Splitting `x + [sep] + rest` yields `x` followed by the pieces of `rest`. */
  lemma SplitAfterPrefix(x: string, sep: char, rest: string)
    requires sep !in x
    ensures Split(x + [sep] + rest, sep) == [x] + Split(rest, sep)
  {
    var s := x + [sep] + rest;
    FindFirstAfterPrefix(x, sep, rest);
    assert s[..|x|] == x;
    assert s[|x| + 1..] == rest;
  }

  /** Appending one more part adds one separator and that part at the end. */
  lemma {:induction false} JoinAppend(parts: seq<string>, last: string, sep: char)
    requires |parts| >= 1
    ensures Join(parts + [last], sep) == Join(parts, sep) + [sep] + last
    decreases |parts|
  {
    if |parts| == 1 {
      assert (parts + [last])[1..] == [last];
    } else {
      assert (parts + [last])[1..] == parts[1..] + [last];
      JoinAppend(parts[1..], last, sep);
    }
  }

  /** Splitting a join of separator-free parts gives the parts back. */
  lemma {:induction false} SplitJoin(parts: seq<string>, sep: char)
    requires |parts| >= 1
    requires forall k :: 0 <= k < |parts| ==> sep !in parts[k]
    ensures Split(Join(parts, sep), sep) == parts
    decreases |parts|
  {
    if |parts| == 1 {
      assert sep !in parts[0];
    } else {
      SplitAfterPrefix(parts[0], sep, Join(parts[1..], sep));
      SplitJoin(parts[1..], sep);
      assert parts == [parts[0]] + parts[1..];
    }
  }

  /** `split(sep, 1)` agrees with `split(sep)`: its first part is the first
      piece, and its second part is the remaining pieces joined back. */
  lemma SplitOnceAgreesWithSplit(s: string, sep: char)
    ensures SplitOnce(s, sep)[0] == Split(s, sep)[0]
    ensures |SplitOnce(s, sep)| == 2 ==> |Split(s, sep)| >= 2
    ensures |SplitOnce(s, sep)| == 2 ==> SplitOnce(s, sep)[1] == Join(Split(s, sep)[1..], sep)
  {
    match FindFirst(s, sep)
    case None =>
    case Some(i) =>
      assert Split(s, sep)[1..] == Split(s[i + 1..], sep);
  }
}
