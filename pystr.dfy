/**
 * The Python `str` operations the page generator calls, on `seq<char>`: `sep.join(xs)`,
 * f-string interpolation of values between literal pieces, `s.strip()` and
 * `s.replace(old, new)`. `Find`, `Split` and `Contains` (Python's `s.find`, `s.split(sep)` and
 * `pat in s`) are reference definitions used to state what `replace` does.
 */
module PyStr {
  import opened Wrappers

  /** `pat` occurs in `s` starting at index `i`. */
  predicate OccursAt(s: string, pat: string, i: int)
  {
    0 <= i && i + |pat| <= |s| && s[i..i + |pat|] == pat
  }

  /** Python's `pat in s`. */
  predicate Contains(s: string, pat: string)
  {
    exists i | 0 <= i <= |s| - |pat| :: OccursAt(s, pat, i)
  }

  /** The leftmost occurrence of `pat` in `s` starts at `k`. */
  predicate FirstOccurrence(s: string, pat: string, k: int)
  {
    OccursAt(s, pat, k) && forall i :: 0 <= i < k ==> !OccursAt(s, pat, i)
  }

  /** Sum of the lengths of the strings in `xs`. */
  function TotalLength(xs: seq<string>): nat
  {
    if xs == [] then 0 else |xs[0]| + TotalLength(xs[1..])
  }

  /** Regrouping a concatenation of three strings. */
  lemma ConcatAssoc(a: string, b: string, c: string)
    ensures a + b + c == a + (b + c)
  {
  }

  /** Regrouping a concatenation of four strings. */
  lemma ConcatRegroup(a: string, b: string, c: string, d: string)
    ensures a + b + c + d == a + (b + c + d)
  {
  }

  // ---------------------------------------------------------------------------
  // str.join

  /** Python's `sep.join(xs)`: the entries in order, one separator between neighbours. */
  function Join(sep: string, xs: seq<string>): string
  {
    if |xs| == 0 then []
    else if |xs| == 1 then xs[0]
    else xs[0] + sep + Join(sep, xs[1..])
  }

  /** A join of `k > 0` entries holds the entries' characters and exactly `k - 1` separators. */
  lemma {:induction false} JoinLength(sep: string, xs: seq<string>)
    requires |xs| > 0
    ensures |Join(sep, xs)| == TotalLength(xs) + (|xs| - 1) * |sep|
    decreases |xs|
  {
    if |xs| > 1 {
      JoinLength(sep, xs[1..]);
      assert (|xs| - 1) * |sep| == |sep| + (|xs| - 2) * |sep|;
    }
  }

  /** Joining a non-empty list begins with its first entry. */
  lemma {:induction false} JoinStartsWithFirst(sep: string, xs: seq<string>)
    requires |xs| > 0
    ensures |xs[0]| <= |Join(sep, xs)| && Join(sep, xs)[..|xs[0]|] == xs[0]
  {
  }

  /** Joining a non-empty list ends with its last entry. */
  lemma {:induction false} JoinEndsWithLast(sep: string, xs: seq<string>)
    requires |xs| > 0
    ensures var r := Join(sep, xs); |xs[|xs| - 1]| <= |r| && r[|r| - |xs[|xs| - 1]|..] == xs[|xs| - 1]
    decreases |xs|
  {
    if |xs| > 1 {
      JoinEndsWithLast(sep, xs[1..]);
    }
  }

  /** Joining is associative over list concatenation, with one separator at the seam. */
  lemma {:induction false} JoinConcat(sep: string, xs: seq<string>, ys: seq<string>)
    requires |xs| > 0 && |ys| > 0
    ensures Join(sep, xs + ys) == Join(sep, xs) + sep + Join(sep, ys)
    decreases |xs|
  {
    assert (xs + ys)[0] == xs[0];
    assert (xs + ys)[1..] == xs[1..] + ys;
    if |xs| > 1 {
      JoinConcat(sep, xs[1..], ys);
    }
  }

  /** `''.join` of a concatenation is the concatenation of the `''.join`s, empty lists included. */
  lemma ConcatAllConcat(xs: seq<string>, ys: seq<string>)
    ensures Join([], xs + ys) == Join([], xs) + Join([], ys)
  {
    if xs == [] {
      assert xs + ys == ys;
    } else if ys == [] {
      assert xs + ys == xs;
    } else {
      JoinConcat([], xs, ys);
    }
  }

  /** A list is its entries before `i`, entry `i`, and its entries after `i`. */
  lemma SplitAround<T>(xs: seq<T>, i: nat)
    requires i < |xs|
    ensures xs == xs[..i] + ([xs[i]] + xs[i + 1..])
  {
  }

  /** `''.join(xs)` is the `''.join` of the entries before `i`, entry `i`, and the `''.join`
      of the entries after it. */
  lemma ConcatAllAt(xs: seq<string>, i: nat)
    requires i < |xs|
    ensures Join([], xs) == Join([], xs[..i]) + xs[i] + Join([], xs[i + 1..])
  {
    var pre, post := xs[..i], xs[i + 1..];
    SplitAround(xs, i);
    ConcatAllConcat(pre, [xs[i]] + post);
    ConcatAllConcat([xs[i]], post);
    assert Join([], [xs[i]]) == xs[i];
    ConcatAssoc(Join([], pre), xs[i], Join([], post));
  }

  /** The head and the tail of a list built by prepending. */
  lemma ConsParts<T>(x: T, xs: seq<T>)
    ensures ([x] + xs)[0] == x && ([x] + xs)[1..] == xs
  {
  }

  /** Joining an entry in front of a non-empty list puts one separator after it. */
  lemma JoinCons(sep: string, x: string, xs: seq<string>)
    requires |xs| > 0
    ensures Join(sep, [x] + xs) == x + sep + Join(sep, xs)
  {
    ConsParts(x, xs);
  }

  // ---------------------------------------------------------------------------
  // str.split with an explicit separator

  /** Python's `s.find(pat, i)`: the leftmost occurrence of `pat` at or after `i`, if any
      (FindSound states what the index means). */
  function Find(s: string, pat: string, i: nat): (r: Option<nat>)
    requires |pat| > 0
    ensures r.Some? ==> i <= r.value && r.value + |pat| <= |s|
    decreases |s| - i
  {
    if i + |pat| > |s| then None
    else if OccursAt(s, pat, i) then Some(i)
    else Find(s, pat, i + 1)
  }

  /** A found index is an occurrence with none before it from `i` on; finding nothing means
      there is no occurrence at or after `i`. */
  lemma {:induction false} FindSound(s: string, pat: string, i: nat)
    requires |pat| > 0
    ensures Find(s, pat, i).Some? ==>
              OccursAt(s, pat, Find(s, pat, i).value)
              && forall j :: i <= j < Find(s, pat, i).value ==> !OccursAt(s, pat, j)
    ensures Find(s, pat, i).None? ==> forall j :: i <= j ==> !OccursAt(s, pat, j)
    decreases |s| - i
  {
    if i + |pat| <= |s| && !OccursAt(s, pat, i) {
      FindSound(s, pat, i + 1);
    }
  }

  /** The search from `i` stops at the first occurrence at or after `i`. */
  lemma {:induction false} FindFrom(s: string, pat: string, i: nat, k: nat)
    requires |pat| > 0 && i <= k && OccursAt(s, pat, k)
    requires forall j :: i <= j < k ==> !OccursAt(s, pat, j)
    ensures Find(s, pat, i) == Some(k)
    decreases k - i
  {
    if i < k {
      FindFrom(s, pat, i + 1, k);
    }
  }

  /** The search from the start finds exactly the leftmost occurrence. */
  lemma FindFirst(s: string, pat: string, k: nat)
    requires |pat| > 0 && FirstOccurrence(s, pat, k)
    ensures Find(s, pat, 0) == Some(k)
  {
    FindFrom(s, pat, 0, k);
  }

  /** The search from the start finds nothing in a string without the pattern. */
  lemma FindNone(s: string, pat: string)
    requires |pat| > 0 && !Contains(s, pat)
    ensures Find(s, pat, 0) == None
  {
    FindSound(s, pat, 0);
  }

  /** Python's `s.split(sep)` for a non-empty `sep`: the text up to the leftmost occurrence of
      `sep`, then the split of what follows that occurrence; the whole string when there is none. */
  function Split(s: string, sep: string): (parts: seq<string>)
    requires |sep| > 0
    ensures |parts| > 0
    decreases |s|
  {
    match Find(s, sep, 0)
    case None => [s]
    case Some(k) => [s[..k]] + Split(s[k + |sep|..], sep)
  }

  /** A string is its text before `k`, the pattern occurring at `k`, and its text after. */
  lemma AroundOccurrence(s: string, pat: string, k: nat)
    requires OccursAt(s, pat, k)
    ensures s == s[..k] + pat + s[k + |pat|..]
  {
    assert s == s[..k] + s[k..k + |pat|] + s[k + |pat|..];
  }

  /** Joining the pieces with the separator gives the string back. */
  lemma {:induction false} SplitJoin(s: string, sep: string)
    requires |sep| > 0
    ensures Join(sep, Split(s, sep)) == s
    decreases |s|
  {
    FindSound(s, sep, 0);
    match Find(s, sep, 0)
    case None =>
    case Some(k) =>
      var rest := Split(s[k + |sep|..], sep);
      SplitJoin(s[k + |sep|..], sep);
      JoinCons(sep, s[..k], rest);
      AroundOccurrence(s, sep, k);
  }

  /** The text before the leftmost occurrence does not contain the pattern. */
  lemma BeforeFirstAvoids(s: string, pat: string, k: nat)
    requires |pat| > 0 && k <= |s| && forall j :: 0 <= j < k ==> !OccursAt(s, pat, j)
    ensures !Contains(s[..k], pat)
  {
    forall j ensures !OccursAt(s[..k], pat, j) {
      if 0 <= j && j + |pat| <= k {
        assert !OccursAt(s, pat, j);
        assert s[..k][j..j + |pat|] == s[j..j + |pat|];
      }
    }
  }

  /** The text after `m` does not contain the pattern when no occurrence starts at or after `m`. */
  lemma AfterLastAvoids(s: string, pat: string, m: nat)
    requires m <= |s| && forall j :: m <= j ==> !OccursAt(s, pat, j)
    ensures !Contains(s[m..], pat)
  {
    forall j ensures !OccursAt(s[m..], pat, j) {
      if 0 <= j && j + |pat| <= |s| - m {
        assert !OccursAt(s, pat, m + j);
        assert s[m..][j..j + |pat|] == s[m + j..m + j + |pat|];
      }
    }
  }

  /** No piece contains the separator: every occurrence was cut out. */
  lemma {:induction false} SplitPartsAvoidSeparator(s: string, sep: string)
    requires |sep| > 0
    ensures forall i :: 0 <= i < |Split(s, sep)| ==> !Contains(Split(s, sep)[i], sep)
    decreases |s|
  {
    var parts := Split(s, sep);
    FindSound(s, sep, 0);
    match Find(s, sep, 0)
    case None =>
      assert parts == [s];
      assert !Contains(s, sep);
    case Some(k) =>
      var rest := Split(s[k + |sep|..], sep);
      SplitPartsAvoidSeparator(s[k + |sep|..], sep);
      BeforeFirstAvoids(s, sep, k);
      ConsParts(s[..k], rest);
      forall i | 0 <= i < |parts| ensures !Contains(parts[i], sep) {
        if i > 0 {
          assert parts[i] == rest[i - 1];
        }
      }
  }

  /** Without an occurrence of the separator the string is a single piece. */
  lemma SplitWithoutSeparator(s: string, sep: string)
    requires |sep| > 0 && !Contains(s, sep)
    ensures Split(s, sep) == [s]
  {
    FindNone(s, sep);
  }

  /** The first piece ends at the leftmost occurrence; the rest is the split of what follows it. */
  lemma SplitAtFirst(s: string, sep: string, k: nat)
    requires |sep| > 0 && FirstOccurrence(s, sep, k)
    ensures Split(s, sep) == [s[..k]] + Split(s[k + |sep|..], sep)
  {
    FindFirst(s, sep, k);
    SplitUnfold(s, sep);
    assert s[Find(s, sep, 0).value + |sep|..] == s[k + |sep|..];
  }

  /** One step of Split, with the found index left as Find's result. */
  lemma SplitUnfold(s: string, sep: string)
    requires |sep| > 0 && Find(s, sep, 0).Some?
    ensures Split(s, sep) == [s[..Find(s, sep, 0).value]] + Split(s[Find(s, sep, 0).value + |sep|..], sep)
  {
  }

  /** When the separator's last character occurs nowhere else in it, a separator-free `x`
      followed by the separator is the first piece of the split, whatever follows. */
  lemma SplitFirstPiece(x: string, sep: string, y: string)
    requires |sep| > 0 && !Contains(x, sep)
    requires forall j :: 0 <= j < |sep| - 1 ==> sep[j] != sep[|sep| - 1]
    ensures Split(x + sep + y, sep)[0] == x
  {
    var s := x + sep + y;
    assert s[|x|..|x| + |sep|] == sep;
    forall i | 0 <= i < |x| ensures !OccursAt(s, sep, i) {
      if i + |sep| <= |x| {
        assert !OccursAt(x, sep, i);
        assert s[i..i + |sep|] == x[i..i + |sep|];
      } else {
        var last := i + |sep| - 1;
        assert s[last] == sep[last - |x|];
        assert s[i..i + |sep|][|sep| - 1] == s[last];
      }
    }
    SplitAtFirst(s, sep, |x|);
    assert s[..|x|] == x;
  }

  /** Variant of SplitFirstPiece: `x` followed by any text that starts with the separator. */
  lemma SplitBeforeSeparator(x: string, sep: string, z: string)
    requires |sep| > 0 && !Contains(x, sep) && |sep| <= |z| && z[..|sep|] == sep
    requires forall j :: 0 <= j < |sep| - 1 ==> sep[j] != sep[|sep| - 1]
    ensures Split(x + z, sep)[0] == x
  {
    assert z == sep + z[|sep|..];
    assert x + z == x + sep + z[|sep|..];
    SplitFirstPiece(x, sep, z[|sep|..]);
  }

  // ---------------------------------------------------------------------------
  // str.replace

  /** Python's `s.replace(pat, repl)` for a non-empty `pat`: the text up to the leftmost
      occurrence, `repl`, then the replacement in what follows the occurrence. Occurrences are
      therefore taken left to right without overlap, and the inserted text is never searched. */
  function ReplaceAll(s: string, pat: string, repl: string): string
    requires |pat| > 0
    decreases |s|
  {
    match Find(s, pat, 0)
    case None => s
    case Some(k) => s[..k] + repl + ReplaceAll(s[k + |pat|..], pat, repl)
  }

  /** `s.replace(pat, repl) == repl.join(s.split(pat))`: the pieces between occurrences are
      kept and every occurrence is replaced. */
  lemma {:induction false} ReplaceAllIsJoinSplit(s: string, pat: string, repl: string)
    requires |pat| > 0
    ensures ReplaceAll(s, pat, repl) == Join(repl, Split(s, pat))
    decreases |s|
  {
    match Find(s, pat, 0)
    case None =>
    case Some(k) =>
      ReplaceAllIsJoinSplit(s[k + |pat|..], pat, repl);
      JoinCons(repl, s[..k], Split(s[k + |pat|..], pat));
  }

  /** A string without the pattern is returned unchanged. */
  lemma ReplaceAllWithoutPattern(s: string, pat: string, repl: string)
    requires |pat| > 0 && !Contains(s, pat)
    ensures ReplaceAll(s, pat, repl) == s
  {
    ReplaceAllIsJoinSplit(s, pat, repl);
    SplitWithoutSeparator(s, pat);
  }

  /** A string holding the pattern exactly once, at `k`, has that one occurrence replaced. */
  lemma ReplaceAllSingle(s: string, pat: string, repl: string, k: nat)
    requires |pat| > 0 && OccursAt(s, pat, k)
    requires forall i :: OccursAt(s, pat, i) ==> i == k
    ensures ReplaceAll(s, pat, repl) == s[..k] + repl + s[k + |pat|..]
  {
    var post := s[k + |pat|..];
    assert FirstOccurrence(s, pat, k);
    assert forall j :: k + |pat| <= j ==> !OccursAt(s, pat, j);
    AfterLastAvoids(s, pat, k + |pat|);
    ReplaceAllWithoutPattern(post, pat, repl);
    ReplaceAllFirst(s, pat, repl, k);
  }

  /** The leftmost occurrence is replaced, and the replacement goes on after it. */
  lemma ReplaceAllFirst(s: string, pat: string, repl: string, k: nat)
    requires |pat| > 0 && FirstOccurrence(s, pat, k)
    ensures ReplaceAll(s, pat, repl) == s[..k] + repl + ReplaceAll(s[k + |pat|..], pat, repl)
  {
    FindFirst(s, pat, k);
    ReplaceAllFound(s, pat, repl, k);
  }

  /** ReplaceAll in terms of the index Find reports. */
  lemma ReplaceAllFound(s: string, pat: string, repl: string, k: nat)
    requires |pat| > 0 && Find(s, pat, 0) == Some(k)
    ensures ReplaceAll(s, pat, repl) == s[..k] + repl + ReplaceAll(s[k + |pat|..], pat, repl)
  {
    ReplaceAllUnfold(s, pat, repl);
    assert s[Find(s, pat, 0).value + |pat|..] == s[k + |pat|..];
  }

  /** One step of ReplaceAll, with the found index left as Find's result. */
  lemma ReplaceAllUnfold(s: string, pat: string, repl: string)
    requires |pat| > 0 && Find(s, pat, 0).Some?
    ensures ReplaceAll(s, pat, repl)
         == s[..Find(s, pat, 0).value] + repl + ReplaceAll(s[Find(s, pat, 0).value + |pat|..], pat, repl)
  {
  }

  // ---------------------------------------------------------------------------
  // Avoiding a pattern

  /** A string with the pattern exactly twice, at both seams guarded as in ReplaceAllAtFirst,
      has both occurrences replaced. */
  lemma ReplaceAllTwice(before: string, pat: string, between: string, after: string, repl: string)
    requires |pat| > 0 && !Contains(before, pat) && !Contains(between, pat) && !Contains(after, pat)
    requires |before| == 0 || before[|before| - 1] !in pat
    requires |between| == 0 || between[|between| - 1] !in pat
    ensures ReplaceAll(before + pat + between + pat + after, pat, repl)
         == before + repl + between + repl + after
  {
    var tail := between + pat + after;
    calc {
      ReplaceAll(before + pat + between + pat + after, pat, repl);
      { ConcatRegroup(before + pat, between, pat, after); }
      ReplaceAll(before + pat + tail, pat, repl);
      { ReplaceAllAtFirst(before, pat, tail, repl); }
      before + repl + ReplaceAll(tail, pat, repl);
      { ReplaceAllAtFirst(between, pat, after, repl); ReplaceAllWithoutPattern(after, pat, repl); }
      before + repl + (between + repl + after);
      { ConcatRegroup(before + repl, between, repl, after); }
      before + repl + between + repl + after;
    }
  }

  /** Replacing the only occurrence of a pattern by text that lacks it, and whose first and
      last characters are not in it, leaves no occurrence behind. */
  lemma ReplaceSingleAvoids(s: string, pat: string, repl: string, k: nat)
    requires |pat| > 0 && OccursAt(s, pat, k) && forall i :: OccursAt(s, pat, i) ==> i == k
    requires !Contains(repl, pat) && |repl| > 0 && repl[0] !in pat && repl[|repl| - 1] !in pat
    ensures !Contains(ReplaceAll(s, pat, repl), pat)
  {
    ReplaceAllSingle(s, pat, repl, k);
    BeforeFirstAvoids(s, pat, k);
    AfterLastAvoids(s, pat, k + |pat|);
    ConcatAvoids(s[..k], repl, pat);
    ConcatAvoids(s[..k] + repl, s[k + |pat|..], pat);
  }

  /** An occurrence preceded by text that neither holds the pattern nor ends in one of its
      characters is the first one: it is replaced and the scan goes on after it. */
  lemma ReplaceAllAtFirst(x: string, pat: string, y: string, repl: string)
    requires |pat| > 0 && !Contains(x, pat) && (|x| == 0 || x[|x| - 1] !in pat)
    ensures ReplaceAll(x + pat + y, pat, repl) == x + repl + ReplaceAll(y, pat, repl)
  {
    var s := x + pat + y;
    assert s[|x|..|x| + |pat|] == pat;
    forall i | 0 <= i < |x| ensures !OccursAt(s, pat, i) {
      if i + |pat| <= |x| {
        assert !OccursAt(x, pat, i);
        assert s[i..i + |pat|] == x[i..i + |pat|];
      } else {
        assert s[i..i + |pat|][|x| - 1 - i] == x[|x| - 1];
      }
    }
    ReplaceAllFirst(s, pat, repl, |x|);
    assert s[..|x|] == x;
    assert s[|x| + |pat|..] == y;
  }

  /** A string lacking some character of the pattern cannot contain the pattern. */
  lemma MissingCharAvoids(s: string, pat: string, j: nat)
    requires j < |pat| && pat[j] !in s
    ensures !Contains(s, pat)
  {
    forall i ensures !OccursAt(s, pat, i) {
      if 0 <= i && i + |pat| <= |s| {
        assert s[i..i + |pat|][j] == s[i + j];
      }
    }
  }

  /** Two strings free of the pattern stay free of it when concatenated, provided a character
      at the seam is not one of the pattern's characters. */
  lemma ConcatAvoids(a: string, b: string, pat: string)
    requires !Contains(a, pat) && !Contains(b, pat)
    requires (|a| > 0 && a[|a| - 1] !in pat) || (|b| > 0 && b[0] !in pat)
    ensures !Contains(a + b, pat)
  {
    forall i ensures !OccursAt(a + b, pat, i) {
      if 0 <= i && i + |pat| <= |a| + |b| {
        var w := (a + b)[i..i + |pat|];
        if i + |pat| <= |a| {
          assert !OccursAt(a, pat, i);
          assert w == a[i..i + |pat|];
        } else if i >= |a| {
          assert !OccursAt(b, pat, i - |a|);
          assert w == b[i - |a|..i - |a| + |pat|];
        } else if |a| > 0 && a[|a| - 1] !in pat {
          assert w[|a| - 1 - i] == a[|a| - 1];
        } else {
          assert w[|a| - i] == b[0];
        }
      }
    }
  }

  /** A join of pattern-free entries with a pattern-free separator whose first and last
      characters are not in the pattern is pattern-free. */
  lemma {:induction false} JoinAvoids(sep: string, xs: seq<string>, pat: string)
    requires |pat| > 0
    requires forall i :: 0 <= i < |xs| ==> !Contains(xs[i], pat)
    requires !Contains(sep, pat) && |sep| > 0 && sep[0] !in pat && sep[|sep| - 1] !in pat
    ensures !Contains(Join(sep, xs), pat)
    decreases |xs|
  {
    if |xs| == 0 {
      forall i ensures !OccursAt([], pat, i) {
      }
    } else if |xs| > 1 {
      JoinAvoids(sep, xs[1..], pat);
      ConcatAvoids(xs[0], sep, pat);
      ConcatAvoids(xs[0] + sep, Join(sep, xs[1..]), pat);
    }
  }

  /** `''.join(xs)` of pattern-free entries, each starting with a character not in the pattern,
      is pattern-free. */
  lemma {:induction false} ConcatAllAvoids(xs: seq<string>, pat: string)
    requires |pat| > 0
    requires forall i :: 0 <= i < |xs| ==> !Contains(xs[i], pat) && |xs[i]| > 0 && xs[i][0] !in pat
    ensures !Contains(Join([], xs), pat)
    decreases |xs|
  {
    if |xs| == 0 {
      forall i ensures !OccursAt([], pat, i) {
      }
    } else if |xs| > 1 {
      ConcatAllAvoids(xs[1..], pat);
      JoinStartsWithFirst([], xs[1..]);
      assert xs[0] + [] == xs[0];
      ConcatAvoids(xs[0], Join([], xs[1..]), pat);
    }
  }

  // ---------------------------------------------------------------------------
  // f-strings

  /** An f-string: the literal pieces with one value interpolated between each neighbouring pair. */
  function Interpolate(pieces: seq<string>, values: seq<string>): string
    requires |pieces| == |values| + 1
    decreases |values|
  {
    if |values| == 0 then pieces[0]
    else pieces[0] + values[0] + Interpolate(pieces[1..], values[1..])
  }

  /** An f-string begins with its first literal piece and ends with its last. */
  lemma {:induction false} InterpolateFrame(pieces: seq<string>, values: seq<string>)
    requires |pieces| == |values| + 1
    ensures var r := Interpolate(pieces, values);
            && |pieces[0]| <= |r| && r[..|pieces[0]|] == pieces[0]
            && |pieces[|values|]| <= |r| && r[|r| - |pieces[|values|]|..] == pieces[|values|]
    decreases |values|
  {
    if |values| > 0 {
      var rest := Interpolate(pieces[1..], values[1..]);
      InterpolateFrame(pieces[1..], values[1..]);
      assert pieces[1..][|values| - 1] == pieces[|values|];
      var r := pieces[0] + values[0] + rest;
      assert r[|r| - |pieces[|values|]|..] == rest[|rest| - |pieces[|values|]|..];
    }
  }

  /** The first two pieces and values of an f-string, spelled out. */
  lemma InterpolateFirstTwo(pieces: seq<string>, values: seq<string>)
    requires |pieces| == |values| + 1 && |values| >= 2
    ensures Interpolate(pieces, values)
         == pieces[0] + values[0] + (pieces[1] + values[1] + Interpolate(pieces[2..], values[2..]))
  {
    assert pieces[1..][0] == pieces[1] && values[1..][0] == values[1];
    assert pieces[1..][1..] == pieces[2..] && values[1..][1..] == values[2..];
  }

  /** Value `k` sits between literal piece `k` and literal piece `k + 1`: the f-string is the
      f-string of everything before it, the value verbatim, and the f-string of everything after. */
  lemma {:induction false} InterpolateAt(pieces: seq<string>, values: seq<string>, k: nat)
    requires |pieces| == |values| + 1 && k < |values|
    ensures Interpolate(pieces, values)
         == Interpolate(pieces[..k + 1], values[..k]) + values[k] + Interpolate(pieces[k + 1..], values[k + 1..])
    decreases k
  {
    var head, after := pieces[0] + values[0], Interpolate(pieces[k + 1..], values[k + 1..]);
    if k == 0 {
      assert values[..0] == [] && pieces[..1][0] == pieces[0];
      assert Interpolate(pieces[..1], values[..0]) == pieces[0];
      assert pieces[1..] == pieces[k + 1..] && values[1..] == values[k + 1..];
    } else {
      var ps, vs := pieces[1..], values[1..];
      var before := Interpolate(ps[..k], vs[..k - 1]);
      assert Interpolate(ps, vs) == before + values[k] + after by {
        InterpolateAt(ps, vs, k - 1);
        assert vs[k - 1] == values[k];
        assert ps[k..] == pieces[k + 1..];
        assert vs[k..] == values[k + 1..];
      }
      assert Interpolate(pieces[..k + 1], values[..k]) == head + before by {
        var p1, v1 := pieces[..k + 1], values[..k];
        assert p1[0] == pieces[0] && v1[0] == values[0];
        assert p1[1..] == ps[..k];
        assert v1[1..] == vs[..k - 1];
      }
      calc {
        Interpolate(pieces, values);
        head + Interpolate(ps, vs);
        head + (before + values[k] + after);
        { assert head + (before + values[k] + after) == (head + before) + values[k] + after; }
        (head + before) + values[k] + after;
      }
    }
  }

  /** Value `k` is preceded by the whole of literal piece `k` and followed by the whole of
      literal piece `k + 1`. */
  lemma InterpolateBetween(pieces: seq<string>, values: seq<string>, k: nat)
    requires |pieces| == |values| + 1 && k < |values|
    ensures var before := Interpolate(pieces[..k + 1], values[..k]);
            var after := Interpolate(pieces[k + 1..], values[k + 1..]);
            && Interpolate(pieces, values) == before + values[k] + after
            && |pieces[k]| <= |before| && before[|before| - |pieces[k]|..] == pieces[k]
            && |pieces[k + 1]| <= |after| && after[..|pieces[k + 1]|] == pieces[k + 1]
  {
    InterpolateAt(pieces, values, k);
    InterpolateFrame(pieces[..k + 1], values[..k]);
    InterpolateFrame(pieces[k + 1..], values[k + 1..]);
    assert pieces[..k + 1][k] == pieces[k];
    assert pieces[k + 1..][0] == pieces[k + 1];
  }

  /** An f-string of pattern-free pieces and values is pattern-free when every piece is
      non-empty and begins and ends with characters not in the pattern. */
  lemma {:induction false} InterpolateAvoids(pieces: seq<string>, values: seq<string>, pat: string)
    requires |pieces| == |values| + 1 && |pat| > 0
    requires forall i :: 0 <= i < |pieces| ==>
      !Contains(pieces[i], pat) && |pieces[i]| > 0 && pieces[i][0] !in pat && pieces[i][|pieces[i]| - 1] !in pat
    requires forall i :: 0 <= i < |values| ==> !Contains(values[i], pat)
    ensures !Contains(Interpolate(pieces, values), pat)
    decreases |values|
  {
    if |values| > 0 {
      var rest := Interpolate(pieces[1..], values[1..]);
      InterpolateAvoids(pieces[1..], values[1..], pat);
      InterpolateFrame(pieces[1..], values[1..]);
      ConcatAvoids(pieces[0], values[0], pat);
      assert rest[0] == pieces[1][0];
      ConcatAvoids(pieces[0] + values[0], rest, pat);
    }
  }

  // ---------------------------------------------------------------------------
  // str.strip

  /** The characters Python's `str.isspace` accepts, which `s.strip()` removes from both ends. */
  predicate IsSpace(c: char)
  {
    || ('\t' <= c <= '\r')                      // tab, line feed, vertical tab, form feed, carriage return
    || ('\U{001C}' <= c <= '\U{001F}')          // file, group, record and unit separators
    || c == ' ' || c == '\U{0085}' || c == '\U{00A0}' || c == '\U{1680}'
    || ('\U{2000}' <= c <= '\U{200A}')          // en quad through hair space
    || c == '\U{2028}' || c == '\U{2029}' || c == '\U{202F}' || c == '\U{205F}' || c == '\U{3000}'
  }

  /** The index of the first non-whitespace character of `s` at or after `i`, or `|s|`. */
  function SkipSpaces(s: string, i: nat): (k: nat)
    requires i <= |s|
    ensures i <= k <= |s|
    ensures forall j :: i <= j < k ==> IsSpace(s[j])
    ensures k < |s| ==> !IsSpace(s[k])
    decreases |s| - i
  {
    if i < |s| && IsSpace(s[i]) then SkipSpaces(s, i + 1) else i
  }

  /** Moving back from `j`, no further than `lo`, past whitespace: the end of `s[lo..j]` once its
      trailing whitespace is removed. */
  function SkipSpacesBack(s: string, lo: nat, j: nat): (k: nat)
    requires lo <= j <= |s|
    ensures lo <= k <= j
    ensures forall m :: k <= m < j ==> IsSpace(s[m])
    ensures k > lo ==> !IsSpace(s[k - 1])
    decreases j
  {
    if j > lo && IsSpace(s[j - 1]) then SkipSpacesBack(s, lo, j - 1) else j
  }

  /** `r` occurs in `s` at `k` with only whitespace before and after it. */
  predicate StrippedAt(s: string, r: string, k: int)
  {
    && OccursAt(s, r, k)
    && (forall i :: 0 <= i < k ==> IsSpace(s[i]))
    && (forall i :: k + |r| <= i < |s| ==> IsSpace(s[i]))
  }

  /** Python's `s.strip()`: the part of `s` left after removing whitespace from both ends. */
  function Strip(s: string): (r: string)
    ensures exists k :: StrippedAt(s, r, k)
    ensures r != [] ==> !IsSpace(r[0]) && !IsSpace(r[|r| - 1])
    ensures r == [] <==> forall i :: 0 <= i < |s| ==> IsSpace(s[i])
  {
    var start := SkipSpaces(s, 0);
    var end := SkipSpacesBack(s, start, |s|);
    assert StrippedAt(s, s[start..end], start) by {
      assert s[start..end][..] == s[start..start + (end - start)];
    }
    assert start < |s| ==> end > start && s[start] == s[start..end][0];
    s[start..end]
  }

  /** Stripping twice is stripping once: the stripped text neither begins nor ends with whitespace. */
  lemma StripIdempotent(s: string)
    ensures Strip(Strip(s)) == Strip(s)
  {
    var r := Strip(s);
    if r != [] {
      assert SkipSpaces(r, 0) == 0;
      assert SkipSpacesBack(r, 0, |r|) == |r|;
      assert r[0..|r|] == r;
    }
  }
}
