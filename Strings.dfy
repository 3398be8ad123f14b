/** The JavaScript string operations the app relies on, with their exact
    semantics for literal (non-regular-expression) arguments:
    `split`, `join`, `replace` (first occurrence), `indexOf`, `startsWith` and
    `trim`, with `RemoveAll` as a reference definition used to state what a
    split leaves behind. Strings are sequences of characters. */
module Strings {
  import opened Types

  predicate StartsWith(s: string, prefix: string) {
    |prefix| <= |s| && s[..|prefix|] == prefix
  }

  /** A string cannot start with a prefix whose first character differs from its own. */
  lemma FirstCharMismatch(s: string, prefix: string)
    requires |s| > 0 && |prefix| > 0 && s[0] != prefix[0]
    ensures !StartsWith(s, prefix)
  {
    if |prefix| <= |s| {
      assert s[..|prefix|][0] == s[0];
    }
  }

  // ---------------------------------------------------------------------------
  // split / join

  /** `s.split(sep)` for a non-empty literal separator: the string is scanned
      left to right and cut at every occurrence of `sep` that does not overlap
      an earlier one. The result always has at least one part. */
  function Split(s: string, sep: string): (parts: seq<string>)
    requires |sep| > 0
    ensures |parts| >= 1
    decreases |s|
  {
    if |s| < |sep| then [s]
    else if s[..|sep|] == sep then [""] + Split(s[|sep|..], sep)
    else
      var rest := Split(s[1..], sep);
      [[s[0]] + rest[0]] + rest[1..]
  }

  /** `parts.join(sep)`. */
  function Join(parts: seq<string>, sep: string): string {
    if |parts| == 0 then ""
    else if |parts| == 1 then parts[0]
    else parts[0] + sep + Join(parts[1..], sep)
  }

  /** The parts laid end to end, with nothing between them. */
  function Concat(parts: seq<string>): string {
    if |parts| == 0 then "" else parts[0] + Concat(parts[1..])
  }

  /** Reference definition (the code never calls it): every non-overlapping
      occurrence of `sep`, found left to right, is deleted, as
      `s.replaceAll(sep, "")` would. */
  function RemoveAll(s: string, sep: string): (r: string)
    requires |sep| > 0
    ensures |r| <= |s|
    decreases |s|
  {
    if |s| < |sep| then s
    else if s[..|sep|] == sep then RemoveAll(s[|sep|..], sep)
    else [s[0]] + RemoveAll(s[1..], sep)
  }

  /** Number of occurrences of the character `c` in `s`. */
  function Count(s: string, c: char): nat {
    if |s| == 0 then 0 else (if s[0] == c then 1 else 0) + Count(s[1..], c)
  }

  /** No occurrence of `sep` begins inside `x`, even one that would run on into
      a `sep` written right after `x`. This is what makes `x` recoverable from
      `x + sep + ...` by `Split`. */
  predicate NoCutBefore(x: string, sep: string) {
    forall p :: 0 <= p < |x| ==> !StartsWith((x + sep)[p..], sep)
  }

  lemma {:induction false} JoinConsHead(c: char, parts: seq<string>, sep: string)
    requires |parts| >= 1
    ensures Join([[c] + parts[0]] + parts[1..], sep) == [c] + Join(parts, sep)
  {
    var q := [[c] + parts[0]] + parts[1..];
    if |parts| > 1 {
      assert q[1..] == parts[1..];
    }
  }

  /** Joining the parts of a split with the same separator gives back the
      original string: `s.split(sep).join(sep) == s`. */
  lemma {:induction false} JoinSplit(s: string, sep: string)
    requires |sep| > 0
    ensures Join(Split(s, sep), sep) == s
    decreases |s|
  {
    if |s| < |sep| {
      assert Split(s, sep) == [s];
    } else if s[..|sep|] == sep {
      var t := s[|sep|..];
      var p := Split(t, sep);
      assert Split(s, sep) == [""] + p;
      assert ([""] + p)[1..] == p;
      assert Join([""] + p, sep) == "" + sep + Join(p, sep);
      JoinSplit(t, sep);
      assert s == sep + t;
    } else {
      var rest := Split(s[1..], sep);
      assert Split(s, sep) == [[s[0]] + rest[0]] + rest[1..];
      JoinSplit(s[1..], sep);
      JoinConsHead(s[0], rest, sep);
      assert s == [s[0]] + s[1..];
    }
  }

  /** A string in which no cut can begin splits into itself alone. */
  lemma {:induction false} SplitAlone(x: string, sep: string)
    requires |sep| > 0 && NoCutBefore(x, sep)
    ensures Split(x, sep) == [x]
    decreases |x|
  {
    if |x| >= |sep| {
      assert (x + sep)[0..] == x + sep;
      assert (x + sep)[..|sep|] == x[..|sep|];
      forall p | 0 <= p < |x[1..]|
        ensures !StartsWith((x[1..] + sep)[p..], sep)
      {
        assert (x[1..] + sep)[p..] == (x + sep)[p + 1..];
      }
      SplitAlone(x[1..], sep);
      assert [x[0]] + x[1..] == x;
    }
  }

  /** Splitting `x + sep + y` cuts exactly after `x` when no cut can begin inside `x`. */
  lemma {:induction false} SplitPrefix(x: string, sep: string, y: string)
    requires |sep| > 0 && NoCutBefore(x, sep)
    ensures Split(x + sep + y, sep) == [x] + Split(y, sep)
    decreases |x|
  {
    var s := x + sep + y;
    if |x| == 0 {
      assert s == sep + y;
      assert s[..|sep|] == sep;
      assert s[|sep|..] == y;
    } else {
      assert (x + sep)[0..] == x + sep;
      assert s[..|sep|] == (x + sep)[..|sep|];
      forall p | 0 <= p < |x[1..]|
        ensures !StartsWith((x[1..] + sep)[p..], sep)
      {
        assert (x[1..] + sep)[p..] == (x + sep)[p + 1..];
      }
      assert s[1..] == x[1..] + sep + y;
      SplitPrefix(x[1..], sep, y);
      assert [x[0]] + x[1..] == x;
    }
  }

  /** Splitting a join gives back the parts, provided no part lets a cut begin
      inside it: `parts.join(sep).split(sep) == parts`. */
  lemma {:induction false} SplitJoin(parts: seq<string>, sep: string)
    requires |sep| > 0 && |parts| >= 1
    requires forall i :: 0 <= i < |parts| ==> NoCutBefore(parts[i], sep)
    ensures Split(Join(parts, sep), sep) == parts
    decreases |parts|
  {
    if |parts| == 1 {
      SplitAlone(parts[0], sep);
    } else {
      SplitJoin(parts[1..], sep);
      SplitPrefix(parts[0], sep, Join(parts[1..], sep));
      assert [parts[0]] + parts[1..] == parts;
    }
  }

  /** Laying the parts of a split end to end deletes every separator:
      `s.split(sep).join("") == s.replaceAll(sep, "")`. */
  lemma {:induction false} ConcatSplit(s: string, sep: string)
    requires |sep| > 0
    ensures Concat(Split(s, sep)) == RemoveAll(s, sep)
    decreases |s|
  {
    if |s| < |sep| {
      assert Concat([s]) == s + Concat([]);
    } else if s[..|sep|] == sep {
      var p := Split(s[|sep|..], sep);
      assert ([""] + p)[1..] == p;
      ConcatSplit(s[|sep|..], sep);
    } else {
      var rest := Split(s[1..], sep);
      var q := [[s[0]] + rest[0]] + rest[1..];
      assert q[1..] == rest[1..];
      assert Concat(rest) == rest[0] + Concat(rest[1..]);
      ConcatSplit(s[1..], sep);
    }
  }

  /** Splitting on one character gives one part more than there are
      occurrences of that character, and no part contains it. */
  lemma {:induction false} SplitOnChar(s: string, c: char)
    ensures |Split(s, [c])| == Count(s, c) + 1
    ensures forall i :: 0 <= i < |Split(s, [c])| ==> c !in Split(s, [c])[i]
    decreases |s|
  {
    if |s| > 0 {
      SplitOnChar(s[1..], c);
      var rest := Split(s[1..], [c]);
      if s[0] == c {
        assert s[..1] == [c];
        assert Split(s, [c]) == [""] + rest;
      } else {
        assert s[..1] != [c];
        var q := [[s[0]] + rest[0]] + rest[1..];
        assert Split(s, [c]) == q;
        forall i | 0 <= i < |q| ensures c !in q[i] {
          if i > 0 { assert q[i] == rest[i]; }
        }
      }
    }
  }

  // ---------------------------------------------------------------------------
  // indexOf / replace

  /** `s.indexOf(pat)`: the first position at which `pat` occurs, if any. */
  function IndexOf(s: string, pat: string): (r: Option<nat>)
    ensures r.Some? ==> r.value <= |s| && StartsWith(s[r.value..], pat)
    ensures r.Some? ==> forall q :: 0 <= q < r.value ==> !StartsWith(s[q..], pat)
    ensures r.None? ==> forall q :: 0 <= q <= |s| ==> !StartsWith(s[q..], pat)
  {
    IndexFrom(s, pat, 0)
  }

  /** `s.indexOf(pat, from)`: the scan for `pat` starting at position `from`. */
  function IndexFrom(s: string, pat: string, from: nat): (r: Option<nat>)
    requires from <= |s|
    ensures r.Some? ==> from <= r.value <= |s| && StartsWith(s[r.value..], pat)
    ensures r.Some? ==> forall q :: from <= q < r.value ==> !StartsWith(s[q..], pat)
    ensures r.None? ==> forall q :: from <= q <= |s| ==> !StartsWith(s[q..], pat)
    decreases |s| - from
  {
    if StartsWith(s[from..], pat) then Some(from)
    else if from == |s| then None
    else IndexFrom(s, pat, from + 1)
  }

  /** `s.replace(pat, rep)` with a literal pattern: only the first occurrence is replaced. */
  function ReplaceFirst(s: string, pat: string, rep: string): (r: string)
    ensures IndexOf(s, pat).None? ==> r == s
    ensures StartsWith(s, pat) ==> r == rep + s[|pat|..]
  {
    match IndexOf(s, pat)
    case None => s
    case Some(k) => s[..k] + rep + s[k + |pat|..]
  }

  // ---------------------------------------------------------------------------
  // trim

  /** The characters `trim` removes, restricted to a fixed set: space, tab,
      line feed, carriage return, vertical tab, form feed, no-break space and
      the byte-order mark. */
  predicate IsSpace(c: char) {
    c == ' ' || c == '\t' || c == '\n' || c == '\r' ||
    c == '\U{B}' || c == '\U{C}' || c == '\U{A0}' || c == '\U{FEFF}'
  }

  predicate AllSpace(s: string) {
    forall i :: 0 <= i < |s| ==> IsSpace(s[i])
  }

  /** Drops the leading whitespace (see `TrimStartFacts`). */
  function TrimStart(s: string): (r: string)
    ensures |r| <= |s|
    decreases |s|
  {
    if |s| > 0 && IsSpace(s[0]) then TrimStart(s[1..]) else s
  }

  /** The result of `TrimStart` is a suffix of `s`, all that was dropped is
      whitespace and the result does not start with whitespace. */
  lemma {:induction false} TrimStartFacts(s: string)
    ensures forall i :: 0 <= i < |TrimStart(s)| ==> TrimStart(s)[i] == s[|s| - |TrimStart(s)| + i]
    ensures forall i :: 0 <= i < |s| - |TrimStart(s)| ==> IsSpace(s[i])
    ensures TrimStart(s) != [] ==> !IsSpace(TrimStart(s)[0])
    decreases |s|
  {
    if |s| > 0 && IsSpace(s[0]) {
      TrimStartFacts(s[1..]);
    }
  }

  /** Drops the trailing whitespace (see `TrimEndFacts`). */
  function TrimEnd(s: string): (r: string)
    ensures |r| <= |s|
    decreases |s|
  {
    if |s| > 0 && IsSpace(s[|s| - 1]) then TrimEnd(s[..|s| - 1]) else s
  }

  /** The result of `TrimEnd` is a prefix of `s`, all that was dropped is
      whitespace and the result does not end with whitespace. */
  lemma {:induction false} TrimEndFacts(s: string)
    ensures forall i :: 0 <= i < |TrimEnd(s)| ==> TrimEnd(s)[i] == s[i]
    ensures forall i :: |TrimEnd(s)| <= i < |s| ==> IsSpace(s[i])
    ensures TrimEnd(s) != [] ==> !IsSpace(TrimEnd(s)[|TrimEnd(s)| - 1])
    decreases |s|
  {
    if |s| > 0 && IsSpace(s[|s| - 1]) {
      TrimEndFacts(s[..|s| - 1]);
    }
  }

  /** `s.trim()`: empty exactly when `s` is all whitespace, otherwise a
      non-empty middle part of `s` that neither starts nor ends with whitespace. */
  function Trim(s: string): (r: string)
    ensures r == [] <==> AllSpace(s)
    ensures r != [] ==> !IsSpace(r[0]) && !IsSpace(r[|r| - 1])
    ensures |r| <= |s|
  {
    TrimSplitsAround(s);
    TrimEnd(TrimStart(s))
  }

  /** Trimming both ends leaves nothing exactly when `s` is all whitespace,
      and otherwise leaves a part that does not start with whitespace. */
  lemma TrimSplitsAround(s: string)
    ensures TrimEnd(TrimStart(s)) == [] <==> AllSpace(s)
    ensures TrimEnd(TrimStart(s)) != [] ==> !IsSpace(TrimEnd(TrimStart(s))[0])
    ensures TrimEnd(TrimStart(s)) != [] ==> !IsSpace(TrimEnd(TrimStart(s))[|TrimEnd(TrimStart(s))| - 1])
  {
    var a := TrimStart(s);
    var r := TrimEnd(a);
    TrimStartFacts(s);
    TrimEndFacts(a);
    if r != [] {
      assert r[0] == a[0];
    }
    if a != [] {
      assert a[0] == s[|s| - |a|];
    }
  }

  /** Leading whitespace does not change the result of `TrimStart`. */
  lemma {:induction false} TrimStartSkipsSpaces(ws: string, x: string)
    requires AllSpace(ws)
    ensures TrimStart(ws + x) == TrimStart(x)
    decreases |ws|
  {
    if |ws| > 0 {
      assert (ws + x)[1..] == ws[1..] + x;
      TrimStartSkipsSpaces(ws[1..], x);
    } else {
      assert ws + x == x;
    }
  }

  /** Trimming whitespace then a string that starts and ends with a
      non-whitespace character gives that string. */
  lemma TrimIndented(ws: string, x: string)
    requires AllSpace(ws) && |x| > 0 && !IsSpace(x[0]) && !IsSpace(x[|x| - 1])
    ensures Trim(ws + x) == x
  {
    TrimStartSkipsSpaces(ws, x);
  }

  /** After leading whitespace, a string that starts with a non-whitespace
      character keeps that character first once trimmed. */
  lemma TrimKeepsFirst(ws: string, x: string)
    requires AllSpace(ws) && |x| > 0 && !IsSpace(x[0])
    ensures Trim(ws + x) != [] && Trim(ws + x)[0] == x[0]
  {
    TrimStartSkipsSpaces(ws, x);
    assert TrimStart(x) == x;
    TrimSplitsAround(ws + x);
    TrimEndFacts(x);
    assert TrimEnd(x)[0] == x[0];
  }
}
