/**
 * The engine's String helpers that the modelled routines rely on: character and
 * substring search, character replacement, whitespace trimming, ASCII case
 * conversion, splitting on a separator (empty parts dropped, the library default),
 * joining with a glue string, and the byte-wise ordering used by std::sort on
 * strings. Strings are sequences of chars; a search that finds nothing returns None
 * where the engine returns NPOS.
 */
module Str {

  datatype Option<T> = None | Some(value: T)

  lemma ConcatAssoc<T>(a: seq<T>, b: seq<T>, c: seq<T>)
    ensures a + (b + c) == a + b + c
  {
  }

  /** A later suffix of a text holds no character an earlier suffix does not hold. */
  lemma NotInLaterSuffix(t: string, i: nat, j: nat, c: char)
    requires i <= j <= |t| && c !in t[i..]
    ensures c !in t[j..]
  {
    forall k | 0 <= k < |t| - j
      ensures t[j..][k] != c
    {
      assert t[j..][k] == t[i..][k + j - i];
    }
  }

  /** A slice inside the front part of a concatenation is a slice of that part. */
  lemma SliceInFront<T>(a: seq<T>, b: seq<T>, i: nat, j: nat)
    requires i <= j <= |a|
    ensures (a + b)[i..j] == a[i..j]
  {
  }

  /** The back part of a concatenation, sliced out again. */
  lemma SliceAtEnd<T>(a: seq<T>, b: seq<T>)
    ensures (a + b)[|a|..|a| + |b|] == b
  {
  }

  /** A non-empty sequence is its front followed by its last element. */
  lemma FrontLast<T>(s: seq<T>)
    requires |s| > 0
    ensures s[..|s| - 1] + [s[|s| - 1]] == s
  {
  }

  /** String::EndsWith (case-sensitive). */
  predicate EndsWith(s: string, suffix: string)
  {
    |suffix| <= |s| && s[|s| - |suffix|..] == suffix
  }

  /** A prefix of a text holds no character the text does not hold. */
  lemma NotInPrefix(t: string, pre: string, c: char)
    requires c !in t && |pre| <= |t| && pre == t[..|pre|]
    ensures c !in pre
  {
    assert forall k :: 0 <= k < |pre| ==> pre[k] == t[k];
  }

  /** Position of the first `c` in `s` (String::Find with a char). */
  function Find(s: string, c: char): (r: Option<nat>)
    ensures r.Some? ==> r.value < |s| && s[r.value] == c
    ensures r.Some? ==> forall k :: 0 <= k < r.value ==> s[k] != c
    ensures r.None? <==> c !in s
  {
    if |s| == 0 then None
    else if s[0] == c then Some(0)
    else match Find(s[1..], c)
      case None => None
      case Some(i) => Some(i + 1)
  }

  /** Position of the last `c` in `s` (String::FindLast with a char). */
  function FindLast(s: string, c: char): (r: Option<nat>)
    ensures r.Some? ==> r.value < |s| && s[r.value] == c
    ensures r.Some? ==> c !in s[r.value + 1..]
    ensures r.None? <==> c !in s
  {
    if |s| == 0 then None
    else if s[|s| - 1] == c then Some(|s| - 1)
    else
      var r := FindLast(s[..|s| - 1], c);
      assert s == s[..|s| - 1] + [s[|s| - 1]];
      r
  }

  /** Appending text without `c` does not move the last `c`. */
  lemma FindLastAppend(a: string, b: string, c: char)
    requires c !in b
    ensures FindLast(a + b, c) == FindLast(a, c)
  {
    var s := a + b;
    match FindLast(a, c)
    case None =>
      assert c !in s;
    case Some(p) =>
      assert s[p] == c;
  }

  predicate OccursAt(s: string, pat: string, i: nat)
  {
    i + |pat| <= |s| && s[i..i + |pat|] == pat
  }

  /**
   * Position of the first occurrence of `pat` in `s` at or after `from`
   * (String::Find with a string). An empty pattern is never found, as in the engine.
   */
  function FindSubFrom(s: string, pat: string, from: nat): (r: Option<nat>)
    decreases |s| - from
    ensures r.Some? ==> |pat| > 0 && from <= r.value && OccursAt(s, pat, r.value)
    ensures r.Some? ==> forall k :: from <= k < r.value ==> !OccursAt(s, pat, k)
    ensures r.None? ==> |pat| == 0 || forall k :: from <= k ==> !OccursAt(s, pat, k)
  {
    if |pat| == 0 || from + |pat| > |s| then None
    else if s[from..from + |pat|] == pat then Some(from)
    else FindSubFrom(s, pat, from + 1)
  }

  function FindSub(s: string, pat: string): (r: Option<nat>)
    ensures r.Some? ==> |pat| > 0 && OccursAt(s, pat, r.value)
    ensures r.Some? ==> forall k :: 0 <= k < r.value ==> !OccursAt(s, pat, k)
    ensures r.None? ==> |pat| == 0 || forall k :: 0 <= k ==> !OccursAt(s, pat, k)
  {
    FindSubFrom(s, pat, 0)
  }

  /**
   * String::Replace with strings: every occurrence of `from`, scanning left to right
   * and resuming after each replacement.
   */
  function ReplaceAll(s: string, from: string, to: string): (r: string)
    decreases |s|
    ensures FindSub(s, from).None? ==> r == s
  {
    match FindSub(s, from)
    case None => s
    case Some(p) => s[..p] + to + ReplaceAll(s[p + |from|..], from, to)
  }

  /** Every `from` replaced by `to` (String::Replaced with chars). */
  function Replaced(s: string, from: char, to: char): (r: string)
    ensures |r| == |s|
    ensures forall i :: 0 <= i < |s| ==> r[i] == (if s[i] == from then to else s[i])
  {
    seq(|s|, i requires 0 <= i < |s| => if s[i] == from then to else s[i])
  }

  lemma ReplacedRemoves(s: string, from: char, to: char)
    requires from != to
    ensures from !in Replaced(s, from, to)
  {
    var r := Replaced(s, from, to);
    forall i | 0 <= i < |r| ensures r[i] != from { }
  }

  lemma ReplacedFixed(s: string, from: char, to: char)
    requires from !in s
    ensures Replaced(s, from, to) == s
  {
  }

  /** The engine trims spaces and tabs only. */
  predicate IsBlank(c: char) { c == ' ' || c == '\t' }

  function TrimStart(s: string): (r: string)
    ensures |r| <= |s| && r == s[|s| - |r|..]
    ensures |r| > 0 ==> !IsBlank(r[0])
    ensures forall k :: 0 <= k < |s| - |r| ==> IsBlank(s[k])
  {
    if |s| > 0 && IsBlank(s[0]) then TrimStart(s[1..]) else s
  }

  function TrimEnd(s: string): (r: string)
    ensures |r| <= |s| && r == s[..|r|]
    ensures |r| > 0 ==> !IsBlank(r[|r| - 1])
    ensures forall k :: |r| <= k < |s| ==> IsBlank(s[k])
  {
    if |s| > 0 && IsBlank(s[|s| - 1]) then TrimEnd(s[..|s| - 1]) else s
  }

  /** String::Trimmed: leading and trailing spaces and tabs removed. */
  function Trimmed(s: string): (r: string)
  {
    TrimEnd(TrimStart(s))
  }

  lemma TrimmedShape(s: string)
    ensures var r := Trimmed(s);
      |r| > 0 ==> !IsBlank(r[0]) && !IsBlank(r[|r| - 1])
  {
  }

  /** A string with no blank at either end is its own trimmed form. */
  lemma TrimmedFixed(s: string)
    requires |s| > 0 ==> !IsBlank(s[0]) && !IsBlank(s[|s| - 1])
    ensures Trimmed(s) == s
  {
  }

  function UpperChar(c: char): char
  {
    if 'a' <= c <= 'z' then (c as int - 32) as char else c
  }

  function LowerChar(c: char): char
  {
    if 'A' <= c <= 'Z' then (c as int + 32) as char else c
  }

  /** String::ToUpper (ASCII letters only, the C locale). */
  function ToUpper(s: string): (r: string)
    ensures |r| == |s| && forall i :: 0 <= i < |s| ==> r[i] == UpperChar(s[i])
  {
    seq(|s|, i requires 0 <= i < |s| => UpperChar(s[i]))
  }

  /** String::ToLower (ASCII letters only, the C locale). */
  function ToLower(s: string): (r: string)
    ensures |r| == |s| && forall i :: 0 <= i < |s| ==> r[i] == LowerChar(s[i])
  {
    seq(|s|, i requires 0 <= i < |s| => LowerChar(s[i]))
  }

  /**
   * String::Split(separator) with the default of dropping empty parts: the maximal
   * runs of non-separator characters, in order.
   */
  function Split(s: string, sep: char): (r: seq<string>)
    decreases |s|
    ensures forall k :: 0 <= k < |r| ==> |r[k]| > 0 && sep !in r[k]
  {
    match Find(s, sep)
    case None => if |s| == 0 then [] else [s]
    case Some(i) => (if i == 0 then [] else [s[..i]]) + Split(s[i + 1..], sep)
  }

  /** String::Joined(parts, glue). */
  function Joined(parts: seq<string>, glue: string): string
  {
    if |parts| == 0 then []
    else if |parts| == 1 then parts[0]
    else parts[0] + glue + Joined(parts[1..], glue)
  }

  /** Splitting a joined list of non-empty, separator-free words gives the words back. */
  lemma {:induction false} SplitJoined(parts: seq<string>, sep: char)
    requires forall k :: 0 <= k < |parts| ==> |parts[k]| > 0 && sep !in parts[k]
    ensures Split(Joined(parts, [sep]), sep) == parts
  {
    if |parts| == 0 {
    } else if |parts| == 1 {
      assert Find(parts[0], sep).None?;
    } else {
      var w := parts[0];
      var rest := Joined(parts[1..], [sep]);
      var s := w + [sep] + rest;
      assert Joined(parts, [sep]) == s;
      SplitAfterWord(w, sep, rest);
      SplitJoined(parts[1..], sep);
      assert parts == [w] + parts[1..];
    }
  }

  /** A non-empty word without the separator, then the separator: the word is the first part. */
  lemma SplitAfterWord(w: string, sep: char, rest: string)
    requires |w| > 0 && sep !in w
    ensures Split(w + [sep] + rest, sep) == [w] + Split(rest, sep)
  {
    var s := w + [sep] + rest;
    assert s[|w|] == sep;
    assert forall k :: 0 <= k < |w| ==> s[k] == w[k];
    assert Find(s, sep) == Some(|w|);
    assert s[..|w|] == w;
    assert s[|w| + 1..] == rest;
  }

  /** Upper-casing a joined list upper-cases each part. */
  lemma {:induction false} ToUpperJoined(parts: seq<string>, glue: string)
    requires ToUpper(glue) == glue
    ensures ToUpper(Joined(parts, glue)) == Joined(seq(|parts|, i requires 0 <= i < |parts| => ToUpper(parts[i])), glue)
  {
    var ups := seq(|parts|, i requires 0 <= i < |parts| => ToUpper(parts[i]));
    if |parts| == 0 {
    } else if |parts| == 1 {
    } else {
      ToUpperJoined(parts[1..], glue);
      assert ups[1..] == seq(|parts[1..]|, i requires 0 <= i < |parts[1..]| => ToUpper(parts[1..][i]));
      ToUpperConcat(parts[0] + glue, Joined(parts[1..], glue));
      ToUpperConcat(parts[0], glue);
    }
  }

  lemma ToUpperConcat(a: string, b: string)
    ensures ToUpper(a + b) == ToUpper(a) + ToUpper(b)
  {
  }

  lemma ToUpperIdempotent(s: string)
    ensures ToUpper(ToUpper(s)) == ToUpper(s)
  {
  }

  // ---------------------------------------------------------------------------
  // Ordering of strings as compared by the engine (byte-wise, a proper prefix first)

  predicate LessEq(a: string, b: string)
    decreases |a|
  {
    |a| == 0 || (|b| > 0 && (a[0] < b[0] || (a[0] == b[0] && LessEq(a[1..], b[1..]))))
  }

  lemma {:induction false} LessEqTotal(a: string, b: string)
    ensures LessEq(a, b) || LessEq(b, a)
    decreases |a|
  {
    if |a| > 0 && |b| > 0 && a[0] == b[0] {
      LessEqTotal(a[1..], b[1..]);
    }
  }

  lemma {:induction false} LessEqAntisymmetric(a: string, b: string)
    requires LessEq(a, b) && LessEq(b, a)
    ensures a == b
    decreases |a|
  {
    if |a| > 0 {
      LessEqAntisymmetric(a[1..], b[1..]);
      assert a == [a[0]] + a[1..] && b == [b[0]] + b[1..];
    }
  }

  lemma {:induction false} LessEqTransitive(a: string, b: string, c: string)
    requires LessEq(a, b) && LessEq(b, c)
    ensures LessEq(a, c)
    decreases |a|
  {
    if |a| > 0 && a[0] == b[0] && b[0] == c[0] {
      LessEqTransitive(a[1..], b[1..], c[1..]);
    }
  }

  predicate Sorted(ws: seq<string>)
  {
    forall i, j :: 0 <= i < j < |ws| ==> LessEq(ws[i], ws[j])
  }

  /** One step of insertion sort: `w` placed before the first word it does not follow. */
  function Insert(w: string, ws: seq<string>): (r: seq<string>)
  {
    if |ws| == 0 then [w]
    else if LessEq(w, ws[0]) then [w] + ws
    else [ws[0]] + Insert(w, ws[1..])
  }

  lemma {:induction false} InsertPermutes(w: string, ws: seq<string>)
    ensures multiset(Insert(w, ws)) == multiset(ws) + multiset{w}
  {
    if |ws| > 0 && !LessEq(w, ws[0]) {
      InsertPermutes(w, ws[1..]);
      assert ws == [ws[0]] + ws[1..];
    }
  }

  lemma {:induction false} InsertSorted(w: string, ws: seq<string>)
    requires Sorted(ws)
    ensures Sorted(Insert(w, ws))
  {
    if |ws| > 0 {
      if LessEq(w, ws[0]) {
        InsertFront(w, ws);
      } else {
        LessEqTotal(w, ws[0]);
        var tail := Insert(w, ws[1..]);
        assert ws == [ws[0]] + ws[1..];
        InsertSorted(w, ws[1..]);
        InsertPermutes(w, ws[1..]);
        InsertBehind(ws[0], ws[1..], w, tail);
      }
    }
  }

  lemma InsertFront(w: string, ws: seq<string>)
    requires Sorted(ws) && |ws| > 0 && LessEq(w, ws[0])
    ensures Sorted([w] + ws)
  {
    var r := [w] + ws;
    forall i, j | 0 <= i < j < |r| ensures LessEq(r[i], r[j]) {
      if i == 0 && j > 1 { LessEqTransitive(w, ws[0], ws[j - 1]); }
    }
  }

  lemma InsertBehind(h: string, ws: seq<string>, w: string, tail: seq<string>)
    requires Sorted([h] + ws) && Sorted(tail) && LessEq(h, w)
    requires multiset(tail) == multiset(ws) + multiset{w}
    ensures Sorted([h] + tail)
  {
    var r := [h] + tail;
    forall j | 1 <= j < |r| ensures LessEq(h, r[j]) {
      assert r[j] in multiset(tail);
      if r[j] != w {
        assert r[j] in multiset(ws);
        var k :| 0 <= k < |ws| && ws[k] == r[j];
        var hw := [h] + ws;
        assert hw[0] == h && hw[k + 1] == ws[k];
        assert LessEq(hw[0], hw[k + 1]);
      }
    }
    forall i, j | 0 <= i < j < |r| ensures LessEq(r[i], r[j]) {
      if i > 0 { assert r[i] == tail[i - 1] && r[j] == tail[j - 1]; }
    }
  }

  /** The ordering that std::sort produces on a list of strings: insertion sort. */
  function Sort(ws: seq<string>): seq<string>
  {
    if |ws| == 0 then []
    else Insert(ws[0], Sort(ws[1..]))
  }

  /** Sort rearranges the words into order. */
  lemma {:induction false} SortSortedPermutes(ws: seq<string>)
    ensures Sorted(Sort(ws)) && multiset(Sort(ws)) == multiset(ws)
  {
    if |ws| > 0 {
      SortSortedPermutes(ws[1..]);
      InsertSorted(ws[0], Sort(ws[1..]));
      InsertPermutes(ws[0], Sort(ws[1..]));
      assert ws == [ws[0]] + ws[1..];
    }
  }

  /** A sorted arrangement of a multiset of strings is unique. */
  lemma {:induction false} SortedUnique(a: seq<string>, b: seq<string>)
    requires Sorted(a) && Sorted(b) && multiset(a) == multiset(b)
    ensures a == b
    decreases |a|
  {
    assert |a| == |multiset(a)| == |multiset(b)| == |b|;
    if |a| > 0 {
      SortedFirst(a, b);
      TailMultiset(a);
      TailMultiset(b);
      SortedTail(a);
      SortedTail(b);
      SortedUnique(a[1..], b[1..]);
      assert a == [a[0]] + a[1..] && b == [b[0]] + b[1..];
    }
  }

  /** Two sorted arrangements of one multiset start with the same (least) word. */
  lemma SortedFirst(a: seq<string>, b: seq<string>)
    requires Sorted(a) && Sorted(b) && multiset(a) == multiset(b) && |a| > 0 && |b| > 0
    ensures a[0] == b[0]
  {
    assert b[0] in multiset(a);
    var i :| 0 <= i < |a| && a[i] == b[0];
    assert a[0] in multiset(b);
    var j :| 0 <= j < |b| && b[j] == a[0];
    if i > 0 { assert LessEq(a[0], a[i]); }
    if j > 0 { assert LessEq(b[0], b[j]); }
    if i > 0 && j > 0 { LessEqAntisymmetric(a[0], b[0]); }
  }

  lemma TailMultiset(a: seq<string>)
    requires |a| > 0
    ensures multiset(a[1..]) == multiset(a) - multiset{a[0]}
  {
    assert a == [a[0]] + a[1..];
    assert multiset(a) == multiset{a[0]} + multiset(a[1..]);
  }

  lemma SortedTail(a: seq<string>)
    requires Sorted(a) && |a| > 0
    ensures Sorted(a[1..])
  {
    forall i, j | 0 <= i < j < |a| - 1 ensures LessEq(a[1..][i], a[1..][j]) {
      assert a[1..][i] == a[i + 1] && a[1..][j] == a[j + 1];
    }
  }

  lemma SortOfSorted(ws: seq<string>)
    requires Sorted(ws)
    ensures Sort(ws) == ws
  {
    SortSortedPermutes(ws);
    SortedUnique(Sort(ws), ws);
  }

  function IntToString(n: int): (r: string)
    ensures |r| > 0
  {
    if n < 0 then "-" + NatToString(-n) else NatToString(n)
  }

  /** Decimal representation without leading zeros. */
  function NatToString(n: nat): (r: string)
    ensures |r| > 0 && forall i :: 0 <= i < |r| ==> '0' <= r[i] <= '9'
    ensures |r| > 1 ==> r[0] != '0'
    ensures n == 0 <==> r == "0"
    decreases n
  {
    if n < 10 then [Digit(n)] else NatToString(n / 10) + [Digit(n % 10)]
  }

  function Digit(d: nat): (c: char)
    requires d < 10
    ensures '0' <= c <= '9'
  {
    ('0' as int + d) as char
  }
}
