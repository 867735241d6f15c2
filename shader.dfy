/**
 * The shader resource: splitting the combined source into a vertex and a pixel
 * program by commenting out the other entry point, the canonical form of a define
 * list, and the cache that maps define strings to shader variations.
 */
module Shader {
  import opened Str
  import opened Arith

  const WRAP: int := 0x1_0000_0000

  // ---------------------------------------------------------------------------
  // CommentOutFunction

  function BraceDelta(c: char): int
  {
    if c == '{' then 1 else if c == '}' then -1 else 0
  }

  /** Number of '{' minus number of '}' in `s`. */
  function Balance(s: string): int
  {
    if |s| == 0 then 0 else Balance(s[..|s| - 1]) + BraceDelta(s[|s| - 1])
  }

  /** `k` holds a '}' at which the braces of s[from..k] balance, counted modulo 2^32. */
  predicate IsClosing(s: string, from: nat, k: nat)
  {
    from <= k < |s| && s[k] == '}' && Balance(s[from..k + 1]) % WRAP == 0
  }

  /** The first closing position at or after `j`. */
  function ClosingBraceFrom(s: string, from: nat, j: nat): Option<nat>
    decreases |s| - j
  {
    if j >= |s| then None
    else if IsClosing(s, from, j) then Some(j)
    else ClosingBraceFrom(s, from, j + 1)
  }

  /** A position the search finds is a '}' at or after `j`. */
  lemma {:induction false} ClosingBraceAt(s: string, from: nat, j: nat)
    decreases |s| - j
    ensures ClosingBraceFrom(s, from, j).Some? ==>
              j <= ClosingBraceFrom(s, from, j).value < |s| && s[ClosingBraceFrom(s, from, j).value] == '}'
  {
    if j < |s| && !IsClosing(s, from, j) {
      ClosingBraceAt(s, from, j + 1);
    }
  }

  /** The search finds the first closing position at or after `j`, and finds none exactly when there is none. */
  lemma {:induction false} ClosingBraceFound(s: string, from: nat, j: nat)
    decreases |s| - j
    ensures ClosingBraceFrom(s, from, j).Some? ==>
              var i := ClosingBraceFrom(s, from, j).value;
              j <= i && IsClosing(s, from, i) && forall k :: j <= k < i ==> !IsClosing(s, from, k)
    ensures ClosingBraceFrom(s, from, j).None? ==> forall k :: j <= k ==> !IsClosing(s, from, k)
  {
    if j < |s| && !IsClosing(s, from, j) {
      ClosingBraceFound(s, from, j + 1);
    }
  }

  // The text with an opening comment marker inserted before the first occurrence of
  // `signature`, and a closing marker after the first '}' following the signature at
  // which the braces balance.
  function CommentedOut(code: string, signature: string): string
  {
    var found := FindSub(code, signature);
    if found.None? then code
    else WithClose(code[..found.value] + "/*" + code[found.value..], found.value + 2 + |signature|)
  }

  /** The closing marker inserted after the first '}' from `from` at which the braces balance, if any. */
  function WithClose(withOpen: string, from: nat): string
  {
    var close := ClosingBraceFrom(withOpen, from, from);
    if close.Some? && close.value < |withOpen| then withOpen[..close.value + 1] + "*/" + withOpen[close.value + 1..]
    else withOpen
  }

  lemma BalanceSnoc(s: string, from: nat, i: nat)
    requires from <= i < |s|
    ensures Balance(s[from..i + 1]) == Balance(s[from..i]) + BraceDelta(s[i])
  {
    assert s[from..i + 1][..i - from] == s[from..i];
  }

  /** One step of the unsigned 32-bit brace counter tracks the balance modulo 2^32. */
  lemma LevelStep(s: string, from: nat, i: nat, level: int)
    requires from <= i < |s| && 0 <= level < WRAP && level == Balance(s[from..i]) % WRAP
    ensures s[i] == '{' ==> (if level == WRAP - 1 then 0 else level + 1) == Balance(s[from..i + 1]) % WRAP
    ensures s[i] == '}' ==> (if level == 0 then WRAP - 1 else level - 1) == Balance(s[from..i + 1]) % WRAP
    ensures s[i] != '{' && s[i] != '}' ==> level == Balance(s[from..i + 1]) % WRAP
  {
    BalanceSnoc(s, from, i);
    ModAdd(Balance(s[from..i]), BraceDelta(s[i]), WRAP);
  }

  /** Scanning past a position that does not close moves the search on by one. */
  lemma ClosingStep(s: string, from: nat, i: nat)
    requires i < |s|
    ensures IsClosing(s, from, i) ==> ClosingBraceFrom(s, from, i) == Some(i)
    ensures !IsClosing(s, from, i) ==> ClosingBraceFrom(s, from, i) == ClosingBraceFrom(s, from, i + 1)
  {
  }

  /** CommentedOut once the signature is found at `p`, in terms of the text with the opening marker. */
  lemma CommentedOutAt(code: string, signature: string, p: nat, withOpen: string)
    requires FindSub(code, signature) == Some(p) && p <= |code|
    requires withOpen == code[..p] + "/*" + code[p..]
    ensures CommentedOut(code, signature) == WithClose(withOpen, p + 2 + |signature|)
  {
    var found := FindSub(code, signature);
    assert found == Some(p);
  }

  /** CommentOutFunction: the brace counter is an unsigned 32-bit integer. */
  method CommentOutFunction(code: string, signature: string) returns (result: string)
    ensures result == CommentedOut(code, signature)
  {
    result := code;
    var found := FindSub(result, signature);
    var braceLevel := 0;
    if found.None? {
      return;
    }
    var startPos := found.value;
    result := result[..startPos] + "/*" + result[startPos..];
    var from := startPos + 2 + |signature|;
    ghost var withOpen := result;
    CommentedOutAt(code, signature, startPos, withOpen);
    var i := from;
    while i < |result|
      invariant from <= i <= |result| && result == withOpen
      invariant 0 <= braceLevel < WRAP && braceLevel == Balance(result[from..i]) % WRAP
      invariant ClosingBraceFrom(result, from, from) == ClosingBraceFrom(result, from, i)
    {
      LevelStep(result, from, i, braceLevel);
      ClosingStep(result, from, i);
      if result[i] == '{' {
        braceLevel := if braceLevel == WRAP - 1 then 0 else braceLevel + 1;
      } else if result[i] == '}' {
        braceLevel := if braceLevel == 0 then WRAP - 1 else braceLevel - 1;
        if braceLevel == 0 {
          result := result[..i + 1] + "*/" + result[i + 1..];
          return;
        }
      }
      i := i + 1;
    }
  }

  /** Without an occurrence of the signature the code is unchanged. */
  lemma CommentOutAbsent(code: string, signature: string)
    requires FindSub(code, signature).None?
    ensures CommentedOut(code, signature) == code
  {
  }

  // The opening marker sits right before the first occurrence `p` of the signature.
  lemma CommentOutOpening(code: string, signature: string, p: nat, withOpen: string, r: string)
    requires FindSub(code, signature) == Some(p)
    requires withOpen == code[..p] + "/*" + code[p..] && r == CommentedOut(code, signature)
    ensures r[..p] == code[..p] && r[p..p + 2] == "/*" && r[p + 2..p + 2 + |signature|] == signature
  {
    var n := p + 2 + |signature|;
    CommentedOutAt(code, signature, p, withOpen);
    OpenedSignature(code, signature, p, withOpen);
    WithCloseKeepsPrefix(withOpen, n, r);
    SliceOfPrefix(r, withOpen, n, 0, p);
    SliceOfPrefix(r, withOpen, n, p, p + 2);
    SliceOfPrefix(r, withOpen, n, p + 2, n);
  }

  /** The closing marker goes after the search start, so the text up to there is kept. */
  lemma WithCloseKeepsPrefix(withOpen: string, n: nat, r: string)
    requires n <= |withOpen| && r == WithClose(withOpen, n)
    ensures n <= |r| && r[..n] == withOpen[..n]
  {
    var close := ClosingBraceFrom(withOpen, n, n);
    if close.Some? && close.value < |withOpen| {
      var i := close.value;
      ClosingBraceAt(withOpen, n, n);
      CloseMarker(withOpen, i, r);
      SliceOfPrefix(r, withOpen, i + 1, 0, n);
      assert r[..n] == r[0..n] && withOpen[..n] == withOpen[0..n];
    }
  }

  /** In the text with the opening marker, the code before `p` is followed by the marker and the signature. */
  lemma OpenedSignature(code: string, signature: string, p: nat, withOpen: string)
    requires FindSub(code, signature) == Some(p)
    requires withOpen == code[..p] + "/*" + code[p..]
    ensures p + 2 + |signature| <= |withOpen|
    ensures withOpen[..p] == code[..p] && withOpen[p..p + 2] == "/*" && withOpen[p + 2..p + 2 + |signature|] == signature
  {
    assert OccursAt(code, signature, p);
    OpenMarker(code, p, withOpen);
    SliceOfSuffix(withOpen, code, p + 2, 0, |signature|);
  }

  // Without a '}' that closes the braces opened after the signature, only the opening
  // marker is added, and removing it restores the code.
  lemma CommentOutUnclosed(code: string, signature: string, p: nat, withOpen: string, r: string)
    requires FindSub(code, signature) == Some(p)
    requires withOpen == code[..p] + "/*" + code[p..] && r == CommentedOut(code, signature)
    requires ClosingBraceFrom(withOpen, p + 2 + |signature|, p + 2 + |signature|).None?
    ensures |r| == |code| + 2 && r[..p] + r[p + 2..] == code
  {
    CommentedOutAt(code, signature, p, withOpen);
    OpenMarker(code, p, withOpen);
  }

  // The closing marker follows the '}' at `i` that closes the braces opened after the
  // signature; removing both markers restores the code.
  lemma CommentOutClosed(code: string, signature: string, p: nat, withOpen: string, i: nat, r: string)
    requires FindSub(code, signature) == Some(p)
    requires withOpen == code[..p] + "/*" + code[p..] && r == CommentedOut(code, signature)
    requires ClosingBraceFrom(withOpen, p + 2 + |signature|, p + 2 + |signature|) == Some(i)
    ensures p + 2 + |signature| <= i && i + 3 <= |r| && r[i] == '}' && r[i + 1..i + 3] == "*/"
    ensures r[..p] + r[p + 2..i + 1] + r[i + 3..] == code
  {
    ClosingBraceAt(withOpen, p + 2 + |signature|, p + 2 + |signature|);
    CommentedOutAt(code, signature, p, withOpen);
    OpenMarker(code, p, withOpen);
    CloseMarker(withOpen, i, r);
    MarkersClosed(code, p, withOpen, i, r);
  }

  /** The text with the opening marker: the code before `p`, the marker, the code from `p`. */
  lemma OpenMarker(code: string, p: nat, withOpen: string)
    requires p <= |code| && withOpen == code[..p] + "/*" + code[p..]
    ensures |withOpen| == |code| + 2
    ensures withOpen[..p] == code[..p] && withOpen[p..p + 2] == "/*" && withOpen[p + 2..] == code[p..]
  {
  }

  /** The text with the closing marker inserted after position `i`. */
  lemma CloseMarker(withOpen: string, i: nat, r: string)
    requires i < |withOpen| && r == withOpen[..i + 1] + "*/" + withOpen[i + 1..]
    ensures r[..i + 1] == withOpen[..i + 1] && r[i] == withOpen[i] && r[i + 1..i + 3] == "*/" && r[i + 3..] == withOpen[i + 1..]
  {
  }

  lemma SliceOfPrefix(a: string, b: string, n: nat, lo: nat, hi: nat)
    requires n <= |a| && n <= |b| && a[..n] == b[..n] && lo <= hi <= n
    ensures a[lo..hi] == b[lo..hi]
  {
    forall k | lo <= k < hi
      ensures a[k] == b[k]
    {
      assert a[k] == a[..n][k] && b[k] == b[..n][k];
    }
  }

  lemma SliceOfSuffix(a: string, b: string, n: nat, lo: nat, hi: nat)
    requires 2 <= n <= |a| && n - 2 <= |b| && a[n..] == b[n - 2..] && lo <= hi <= |a| - n
    ensures a[n + lo..n + hi] == b[n - 2 + lo..n - 2 + hi]
  {
    assert a[n + lo..n + hi] == a[n..][lo..hi];
    assert b[n - 2 + lo..n - 2 + hi] == b[n - 2..][lo..hi];
  }

  lemma MarkersClosed(code: string, p: nat, withOpen: string, i: nat, r: string)
    requires p <= |code| && |withOpen| == |code| + 2 && withOpen[..p] == code[..p] && withOpen[p + 2..] == code[p..]
    requires p + 2 <= i < |withOpen| && |r| == |withOpen| + 2
    requires r[..i + 1] == withOpen[..i + 1] && r[i + 3..] == withOpen[i + 1..]
    ensures r[..p] + r[p + 2..i + 1] + r[i + 3..] == code
  {
    SliceOfPrefix(r, withOpen, i + 1, 0, p);
    SliceOfPrefix(r, withOpen, i + 1, p + 2, i + 1);
    assert withOpen[p + 2..] == withOpen[p + 2..i + 1] + withOpen[i + 1..];
    ConcatAssoc(code[..p], withOpen[p + 2..i + 1], withOpen[i + 1..]);
    assert code == code[..p] + code[p..];
  }

  // ---------------------------------------------------------------------------
  // NormalizeDefines

  /** Upper-cased, split on spaces (empty words dropped), sorted, joined with single spaces. */
  function NormalizeDefines(defines: string): string
  {
    Joined(Sort(Split(ToUpper(defines), ' ')), " ")
  }

  /** Every character is its own upper case. */
  predicate IsUpper(s: string)
  {
    forall k :: 0 <= k < |s| ==> UpperChar(s[k]) == s[k]
  }

  lemma {:induction false} SplitKeepsUpper(s: string, sep: char)
    requires IsUpper(s) && UpperChar(sep) == sep
    ensures forall k :: 0 <= k < |Split(s, sep)| ==> IsUpper(Split(s, sep)[k])
    decreases |s|
  {
    match Find(s, sep)
    case None =>
    case Some(i) =>
      SliceUpper(s, 0, i);
      SliceUpper(s, i + 1, |s|);
      SplitKeepsUpper(s[i + 1..], sep);
      SplitStepUpper(s, sep, i);
  }

  /** The words of a text whose first separator is at `i`: the upper-case word before it, then the upper-case words after it. */
  lemma SplitStepUpper(s: string, sep: char, i: nat)
    requires Find(s, sep) == Some(i) && IsUpper(s[..i]) && AllUpper(Split(s[i + 1..], sep))
    ensures AllUpper(Split(s, sep))
  {
    var head: seq<string> := if i == 0 then [] else [s[..i]];
    var tail := Split(s[i + 1..], sep);
    assert Split(s, sep) == head + tail;
    AllUpperAppend(head, tail);
  }

  /** Every word is upper case. */
  predicate AllUpper(ws: seq<string>)
  {
    forall k :: 0 <= k < |ws| ==> IsUpper(ws[k])
  }

  /** Two lists of upper-case words join into one. */
  lemma AllUpperAppend(a: seq<string>, b: seq<string>)
    requires AllUpper(a) && AllUpper(b)
    ensures AllUpper(a + b)
  {
    forall k | 0 <= k < |a + b|
      ensures IsUpper((a + b)[k])
    {
      if k >= |a| {
        assert (a + b)[k] == b[k - |a|];
      }
    }
  }

  /** Upper-casing an upper-case text changes nothing. */
  lemma UpperFixed(s: string)
    requires IsUpper(s)
    ensures ToUpper(s) == s
  {
    assert forall k :: 0 <= k < |s| ==> ToUpper(s)[k] == s[k];
  }

  lemma SliceUpper(s: string, a: nat, b: nat)
    requires IsUpper(s) && a <= b <= |s|
    ensures IsUpper(s[a..b])
  {
    var t := s[a..b];
    forall k | 0 <= k < |t| ensures UpperChar(t[k]) == t[k] {
      assert t[k] == s[a + k];
    }
  }

  /** The words of the normal form, in order. */
  function DefineWords(defines: string): (r: seq<string>)
    ensures Sorted(r) && multiset(r) == multiset(Split(ToUpper(defines), ' '))
    ensures forall k :: 0 <= k < |r| ==> |r[k]| > 0 && ' ' !in r[k] && IsUpper(r[k])
  {
    var ws := Split(ToUpper(defines), ' ');
    ToUpperIdempotent(defines);
    SplitKeepsUpper(ToUpper(defines), ' ');
    var r := Sort(ws);
    SortSortedPermutes(ws);
    SortKeepsWords(ws, r);
    r
  }

  lemma SortKeepsWords(ws: seq<string>, r: seq<string>)
    requires multiset(r) == multiset(ws)
    requires forall k :: 0 <= k < |ws| ==> |ws[k]| > 0 && ' ' !in ws[k] && IsUpper(ws[k])
    ensures forall k :: 0 <= k < |r| ==> |r[k]| > 0 && ' ' !in r[k] && IsUpper(r[k])
  {
    forall k | 0 <= k < |r| ensures |r[k]| > 0 && ' ' !in r[k] && IsUpper(r[k]) {
      assert r[k] in multiset(ws);
    }
  }

  /** Splitting the normal form gives back its sorted, upper-case words. */
  lemma NormalizeWords(defines: string)
    ensures Split(NormalizeDefines(defines), ' ') == DefineWords(defines)
  {
    SplitJoined(DefineWords(defines), ' ');
  }

  /** The normal form is a fixed point: normalising twice is normalising once. */
  lemma NormalizeIdempotent(defines: string)
    ensures NormalizeDefines(NormalizeDefines(defines)) == NormalizeDefines(defines)
  {
    var ws := DefineWords(defines);
    var n := NormalizeDefines(defines);
    ToUpperJoined(ws, " ");
    forall i | 0 <= i < |ws|
      ensures ToUpper(ws[i]) == ws[i]
    {
      UpperFixed(ws[i]);
    }
    assert seq(|ws|, i requires 0 <= i < |ws| => ToUpper(ws[i])) == ws;
    assert ToUpper(n) == n;
    SplitJoined(ws, ' ');
    SortOfSorted(ws);
  }

  /** Define lists with the same words in any order and case have the same normal form. */
  lemma NormalizeReorder(d1: string, d2: string)
    requires multiset(Split(ToUpper(d1), ' ')) == multiset(Split(ToUpper(d2), ' '))
    ensures NormalizeDefines(d1) == NormalizeDefines(d2)
  {
    SortedUnique(DefineWords(d1), DefineWords(d2));
  }

  /** Case does not matter. */
  lemma NormalizeIgnoresCase(defines: string)
    ensures NormalizeDefines(ToUpper(defines)) == NormalizeDefines(defines)
  {
    ToUpperIdempotent(defines);
  }

  // ---------------------------------------------------------------------------
  // Variation cache

  datatype ShaderType = VS | PS
  datatype Variation = Variation(shaderType: ShaderType, defines: string)

  /**
   * The cache of one shader type: every key maps to a variation of that type whose
   * defines are the key's normal form, and every variation of that type is cached
   * under its own defines.
   */
  predicate CacheValid(cache: map<string, nat>, variations: seq<Variation>, t: ShaderType)
  {
    && (forall k :: k in cache ==> cache[k] < |variations| && variations[cache[k]] == Variation(t, NormalizeDefines(k)))
    && (forall i :: 0 <= i < |variations| && variations[i].shaderType == t ==>
          variations[i].defines in cache && cache[variations[i].defines] == i)
  }

  /** Two define strings share a cached variation exactly when their normal forms agree. */
  lemma SharedVariation(cache: map<string, nat>, variations: seq<Variation>, t: ShaderType, d1: string, d2: string)
    requires CacheValid(cache, variations, t) && d1 in cache && d2 in cache
    ensures cache[d1] == cache[d2] <==> NormalizeDefines(d1) == NormalizeDefines(d2)
  {
    var v1 := cache[d1];
    var v2 := cache[d2];
    assert variations[v1].defines in cache && cache[variations[v1].defines] == v1;
    assert variations[v2].defines in cache && cache[variations[v2].defines] == v2;
  }

  /** No two variations of one type have the same defines. */
  lemma VariationsDistinct(cache: map<string, nat>, variations: seq<Variation>, t: ShaderType, i: nat, j: nat)
    requires CacheValid(cache, variations, t)
    requires i < j < |variations| && variations[i].shaderType == t
    ensures variations[i] != variations[j]
  {
  }

  /** Adding an alias for a key whose normal form names an existing variation keeps the cache valid. */
  lemma CacheAddAlias(cache: map<string, nat>, variations: seq<Variation>, t: ShaderType, k: string, v: nat)
    requires CacheValid(cache, variations, t) && k !in cache
    requires v < |variations| && variations[v] == Variation(t, NormalizeDefines(k))
    ensures CacheValid(cache[k := v], variations, t)
  {
    var c := cache[k := v];
    forall j | j in c ensures c[j] < |variations| && variations[c[j]] == Variation(t, NormalizeDefines(j)) {
      if j != k {
        assert c[j] == cache[j];
      }
    }
    forall i | 0 <= i < |variations| && variations[i].shaderType == t
      ensures variations[i].defines in c && c[variations[i].defines] == i
    {
      assert variations[i].defines in cache;
    }
  }

  /** Creating a variation for a normal form not yet cached, and caching it under that form, keeps the cache valid. */
  lemma CacheAddNew(cache: map<string, nat>, variations: seq<Variation>, t: ShaderType, n: string)
    requires CacheValid(cache, variations, t) && n !in cache && NormalizeDefines(n) == n
    ensures CacheValid(cache[n := |variations|], variations + [Variation(t, n)], t)
  {
    var vs := variations + [Variation(t, n)];
    forall i | 0 <= i < |vs| && vs[i].shaderType == t
      ensures vs[i].defines in cache[n := |variations|] && cache[n := |variations|][vs[i].defines] == i
    {
      if i < |variations| {
        assert vs[i] == variations[i];
      }
    }
  }

  /** A new variation of one type leaves the other type's cache valid. */
  lemma CacheExtendOther(cache: map<string, nat>, variations: seq<Variation>, t: ShaderType, x: Variation)
    requires CacheValid(cache, variations, t) && x.shaderType != t
    ensures CacheValid(cache, variations + [x], t)
  {
    var vs := variations + [x];
    forall i | 0 <= i < |vs| && vs[i].shaderType == t
      ensures vs[i].defines in cache && cache[vs[i].defines] == i
    {
      assert vs[i] == variations[i];
    }
  }

  function MemoryUse(sizeofShader: nat, sizeofVariation: nat, vs: string, ps: string, numVariations: nat): (r: nat)
    ensures r < WRAP
  {
    (sizeofShader + |vs| + |ps| + numVariations * sizeofVariation) % WRAP
  }

  /**
   * What ProcessSource reads: the modification times of the non-packaged files it opens
   * (the shader file and its includes, in the order opened, up to where it stops), and the
   * expanded source, None when an include is missing or cannot be processed.
   */
  datatype SourceRead = SourceRead(fileTimes: seq<nat>, code: Option<string>)

  /** The time stamp after ProcessSource raises `stamp` to each file time that exceeds it. */
  function RaisedStamp(stamp: nat, times: seq<nat>): (r: nat)
    ensures stamp <= r
    ensures forall i :: 0 <= i < |times| ==> times[i] <= r
    ensures r == stamp || exists i :: 0 <= i < |times| && r == times[i]
    decreases |times|
  {
    if times == [] then stamp
    else
      var rest := RaisedStamp(stamp, times[..|times| - 1]);
      var t := times[|times| - 1];
      if t > rest then t else rest
  }

  /** A failed read keeps the stamps already raised: reading more files never lowers the stamp. */
  lemma {:induction false} RaisedStampMonotone(stamp: nat, times: seq<nat>, more: seq<nat>)
    ensures RaisedStamp(stamp, times) <= RaisedStamp(stamp, times + more)
  {
    assert forall i :: 0 <= i < |times| ==> (times + more)[i] == times[i];
  }

  class ShaderResource {
    /** sizeof(Shader) and sizeof(ShaderVariation), which depend on the build. */
    const sizeofShader: nat
    const sizeofVariation: nat
    var vsSourceCode: string
    var psSourceCode: string
    var timeStamp: nat
    var numVariations: nat
    var memoryUse: nat
    var vsVariations: map<string, nat>
    var psVariations: map<string, nat>
    /** Every variation object created by this shader, in creation order. */
    var variations: seq<Variation>

    predicate Valid()
      reads this
    {
      && CacheValid(vsVariations, variations, VS)
      && CacheValid(psVariations, variations, PS)
      && numVariations == |variations|
      && memoryUse == MemoryUse(sizeofShader, sizeofVariation, vsSourceCode, psSourceCode, numVariations)
    }

    constructor(sizeofShader: nat, sizeofVariation: nat)
      ensures Valid() && fresh(this)
      ensures this.sizeofShader == sizeofShader && this.sizeofVariation == sizeofVariation
      ensures variations == [] && vsSourceCode == [] && psSourceCode == [] && timeStamp == 0
    {
      this.sizeofShader := sizeofShader;
      this.sizeofVariation := sizeofVariation;
      vsSourceCode := [];
      psSourceCode := [];
      timeStamp := 0;
      numVariations := 0;
      vsVariations := map[];
      psVariations := map[];
      variations := [];
      memoryUse := MemoryUse(sizeofShader, sizeofVariation, [], [], 0);
    }

    method RefreshMemoryUse()
      modifies this
      ensures memoryUse == MemoryUse(sizeofShader, sizeofVariation, vsSourceCode, psSourceCode, numVariations)
      ensures vsSourceCode == old(vsSourceCode) && psSourceCode == old(psSourceCode)
      ensures numVariations == old(numVariations) && variations == old(variations) && timeStamp == old(timeStamp)
      ensures vsVariations == old(vsVariations) && psVariations == old(psVariations)
    {
      memoryUse := (sizeofShader + |vsSourceCode| + |psSourceCode| + numVariations * sizeofVariation) % WRAP;
    }

    /**
     * BeginLoad: fails without a graphics subsystem or when the source cannot be
     * read; the time stamp restarts at 0 and is raised to the newest file time read,
     * on failure as well;
     * otherwise the vertex program has PS() commented out and the pixel program VS(),
     * and on OpenGL the remaining entry point is renamed to main().
     */
    method BeginLoad(hasGraphics: bool, read: SourceRead, openGL: bool) returns (ok: bool)
      requires Valid()
      modifies this
      ensures Valid()
      ensures ok <==> hasGraphics && read.code.Some?
      ensures !hasGraphics ==> vsSourceCode == old(vsSourceCode) && psSourceCode == old(psSourceCode) && timeStamp == old(timeStamp)
      ensures hasGraphics ==> timeStamp == RaisedStamp(0, read.fileTimes)
      ensures hasGraphics && read.code.None? ==> vsSourceCode == old(vsSourceCode) && psSourceCode == old(psSourceCode)
      ensures ok ==> vsSourceCode == EntrySource(read.code.value, "void PS(", "void VS(", openGL)
      ensures ok ==> psSourceCode == EntrySource(read.code.value, "void VS(", "void PS(", openGL)
      ensures variations == old(variations) && vsVariations == old(vsVariations) && psVariations == old(psVariations)
    {
      if !hasGraphics {
        return false;
      }
      timeStamp := RaisedStamp(0, read.fileTimes);
      if read.code.None? {
        return false;
      }
      var shaderCode := read.code.value;
      vsSourceCode := CommentOutFunction(shaderCode, "void PS(");
      psSourceCode := CommentOutFunction(shaderCode, "void VS(");
      if openGL {
        vsSourceCode := ReplaceAll(vsSourceCode, "void VS(", "void main(");
        psSourceCode := ReplaceAll(psSourceCode, "void PS(", "void main(");
      }
      RefreshMemoryUse();
      return true;
    }

    /**
     * GetVariation: looks the defines up as given, then in normal form (and aliases
     * them to the variation found), and otherwise creates a variation for the normal
     * form and caches it under both strings.
     */
    method GetVariation(t: ShaderType, defines: string) returns (v: nat)
      requires Valid()
      modifies this
      ensures Valid()
      ensures v < |variations| && variations[v] == Variation(t, NormalizeDefines(defines))
      ensures Cache(Other(t)) == old(Cache(Other(t)))
      ensures defines in old(Cache(t)) ==> v == old(Cache(t))[defines] && Cache(t) == old(Cache(t))
      ensures (defines !in old(Cache(t)) && NormalizeDefines(defines) in old(Cache(t)))
              ==> v == old(Cache(t))[NormalizeDefines(defines)] && Cache(t) == old(Cache(t))[defines := v]
      ensures (defines !in old(Cache(t)) && NormalizeDefines(defines) !in old(Cache(t)))
              ==> variations == old(variations) + [Variation(t, NormalizeDefines(defines))]
                  && Cache(t) == old(Cache(t))[NormalizeDefines(defines) := v][defines := v]
      ensures (defines in old(Cache(t)) || NormalizeDefines(defines) in old(Cache(t))) ==> variations == old(variations)
      ensures vsSourceCode == old(vsSourceCode) && psSourceCode == old(psSourceCode) && timeStamp == old(timeStamp)
    {
      if defines in Cache(t) {
        v := Cache(t)[defines];
        return;
      }
      var normalizedDefines := NormalizeDefines(defines);
      if normalizedDefines in Cache(t) {
        v := AliasNormalized(t, defines, normalizedDefines);
      } else {
        v := CreateNormalized(t, defines, normalizedDefines);
      }
    }

    /** The defines miss but their normal form hits: the defines become an alias of that variation. */
    method AliasNormalized(t: ShaderType, defines: string, normalizedDefines: string) returns (v: nat)
      requires Valid() && defines !in Cache(t)
      requires normalizedDefines == NormalizeDefines(defines) && normalizedDefines in Cache(t)
      modifies this
      ensures Valid()
      ensures v == old(Cache(t))[normalizedDefines] && v < |variations| && variations[v] == Variation(t, normalizedDefines)
      ensures Cache(t) == old(Cache(t))[defines := v] && Cache(Other(t)) == old(Cache(Other(t)))
      ensures variations == old(variations)
      ensures vsSourceCode == old(vsSourceCode) && psSourceCode == old(psSourceCode) && timeStamp == old(timeStamp)
    {
      v := Cache(t)[normalizedDefines];
      assert variations[v] == Variation(t, NormalizeDefines(normalizedDefines));
      NormalizeIdempotent(defines);
      AddAlias(t, defines, v);
    }

    /** Both miss: a variation is created for the normal form and cached under it and under the defines. */
    method CreateNormalized(t: ShaderType, defines: string, normalizedDefines: string) returns (v: nat)
      requires Valid() && defines !in Cache(t)
      requires normalizedDefines == NormalizeDefines(defines) && normalizedDefines !in Cache(t)
      modifies this
      ensures Valid()
      ensures v == |old(variations)| && variations == old(variations) + [Variation(t, normalizedDefines)]
      ensures Cache(t) == old(Cache(t))[normalizedDefines := v][defines := v] && Cache(Other(t)) == old(Cache(Other(t)))
      ensures vsSourceCode == old(vsSourceCode) && psSourceCode == old(psSourceCode) && timeStamp == old(timeStamp)
    {
      NormalizeIdempotent(defines);
      v := CreateVariation(t, normalizedDefines);
      if defines != normalizedDefines {
        AddAlias(t, defines, v);
      } else {
        assert Cache(t)[defines := v] == Cache(t);
      }
    }

    /** Caches an existing variation under one more define string. */
    method AddAlias(t: ShaderType, defines: string, v: nat)
      requires Valid() && defines !in Cache(t)
      requires v < |variations| && variations[v] == Variation(t, NormalizeDefines(defines))
      modifies this
      ensures Valid()
      ensures Cache(t) == old(Cache(t))[defines := v] && Cache(Other(t)) == old(Cache(Other(t)))
      ensures variations == old(variations) && numVariations == old(numVariations)
      ensures vsSourceCode == old(vsSourceCode) && psSourceCode == old(psSourceCode) && timeStamp == old(timeStamp)
    {
      CacheAddAlias(Cache(t), variations, t, defines, v);
      SetCache(t, Cache(t)[defines := v]);
    }

    /** Creates the variation for a normal form that is not cached yet and caches it under that form. */
    method CreateVariation(t: ShaderType, normalizedDefines: string) returns (v: nat)
      requires Valid() && normalizedDefines !in Cache(t) && NormalizeDefines(normalizedDefines) == normalizedDefines
      modifies this
      ensures Valid()
      ensures v == |old(variations)| && variations == old(variations) + [Variation(t, normalizedDefines)]
      ensures Cache(t) == old(Cache(t))[normalizedDefines := v] && Cache(Other(t)) == old(Cache(Other(t)))
      ensures vsSourceCode == old(vsSourceCode) && psSourceCode == old(psSourceCode) && timeStamp == old(timeStamp)
    {
      v := |variations|;
      CacheAddNew(Cache(t), variations, t, normalizedDefines);
      CacheExtendOther(Cache(Other(t)), variations, Other(t), Variation(t, normalizedDefines));
      var cache := Cache(t)[normalizedDefines := v];
      variations := variations + [Variation(t, normalizedDefines)];
      SetCache(t, cache);
      numVariations := numVariations + 1;
      RefreshMemoryUse();
    }

    /** Stores the cache of one shader type. */
    method SetCache(t: ShaderType, cache: map<string, nat>)
      modifies this
      ensures Cache(t) == cache && Cache(Other(t)) == old(Cache(Other(t)))
      ensures variations == old(variations) && numVariations == old(numVariations) && memoryUse == old(memoryUse)
      ensures vsSourceCode == old(vsSourceCode) && psSourceCode == old(psSourceCode) && timeStamp == old(timeStamp)
    {
      if t == VS {
        vsVariations := cache;
      } else {
        psVariations := cache;
      }
    }

    function Cache(t: ShaderType): map<string, nat>
      reads this
    {
      if t == VS then vsVariations else psVariations
    }
  }

  function Other(t: ShaderType): ShaderType
  {
    if t == VS then PS else VS
  }

  /** The program for one entry point: the other one commented out, and on OpenGL this one renamed to main(). */
  function EntrySource(code: string, otherSignature: string, ownSignature: string, openGL: bool): string
  {
    var split := CommentedOut(code, otherSignature);
    if openGL then ReplaceAll(split, ownSignature, "void main(") else split
  }
}
