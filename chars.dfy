/**
 * Character classes and small string helpers shared by the text pipeline of
 * server.py: Python's notion of whitespace (`\s` in a str pattern and
 * `str.strip()`), maximal runs, stripping and filtering.
 */
module Chars {

  /** A value that may be missing: a failed match, an unknown key. */
  datatype Option<T> = None | Some(value: T)

  /** `n` copies of the character `m`. */
  function Repeat(m: char, n: nat): (r: seq<char>)
    ensures |r| == n && forall k | 0 <= k < n :: r[k] == m
  {
    if n == 0 then [] else [m] + Repeat(m, n - 1)
  }

  /** `s` holds `w` at index `i`. */
  predicate HasAt(s: seq<char>, i: nat, w: seq<char>) {
    i + |w| <= |s| && s[i..i + |w|] == w
  }

  /** Python's whitespace for text (`str.isspace`, which is also what `\s` matches in a str pattern). */
  predicate IsSpace(c: char) {
    || c == ' '
    || ('\t' <= c <= '\r')
    || ('\U{1C}' <= c <= '\U{1F}')
    || c == '\U{85}' || c == '\U{A0}' || c == '\U{1680}'
    || ('\U{2000}' <= c <= '\U{200A}')
    || c == '\U{2028}' || c == '\U{2029}' || c == '\U{202F}' || c == '\U{205F}' || c == '\U{3000}'
  }

  /** End of the maximal run of whitespace that starts at `i`. */
  function SpaceRunEnd(s: seq<char>, i: nat): (j: nat)
    requires i <= |s|
    ensures i <= j <= |s|
    ensures forall k | i <= k < j :: IsSpace(s[k])
    ensures j == |s| || !IsSpace(s[j])
    decreases |s| - i
  {
    if i < |s| && IsSpace(s[i]) then SpaceRunEnd(s, i + 1) else i
  }

  /** End of the maximal run of the character `c` that starts at `i`. */
  function CharRunEnd(s: seq<char>, i: nat, c: char): (j: nat)
    requires i <= |s|
    ensures i <= j <= |s|
    ensures forall k | i <= k < j :: s[k] == c
    ensures j == |s| || s[j] != c
    decreases |s| - i
  {
    if i < |s| && s[i] == c then CharRunEnd(s, i + 1, c) else i
  }

  /** `s` starts, at index `i`, with at least `n` whitespace characters. */
  ghost predicate SpacesAt(s: seq<char>, i: nat, n: nat) {
    i + n <= |s| && forall k | i <= k < i + n :: IsSpace(s[k])
  }

  /** No whitespace character of `s` is directly followed by another one. */
  ghost predicate NoDoubleSpace(s: seq<char>) {
    forall k | 0 <= k < |s| - 1 :: !(IsSpace(s[k]) && IsSpace(s[k + 1]))
  }

  /** Neither end of `s` is whitespace. */
  ghost predicate Trimmed(s: seq<char>) {
    |s| > 0 ==> !IsSpace(s[0]) && !IsSpace(s[|s| - 1])
  }

  /** `s` with its leading whitespace removed (`str.lstrip()`). */
  function TrimStart(s: seq<char>): (r: seq<char>)
    ensures r == s[SpaceRunEnd(s, 0)..]
    ensures |r| > 0 ==> !IsSpace(r[0])
  {
    s[SpaceRunEnd(s, 0)..]
  }

  /** `s` with its trailing whitespace removed (`str.rstrip()`). */
  function TrimEnd(s: seq<char>): (r: seq<char>)
    ensures |r| <= |s| && r == s[..|r|]
    ensures forall k | |r| <= k < |s| :: IsSpace(s[k])
    ensures |r| > 0 ==> !IsSpace(r[|r| - 1])
  {
    if |s| > 0 && IsSpace(s[|s| - 1]) then TrimEnd(s[..|s| - 1]) else s
  }

  /**
   * Python's `str.strip()`: the slice of `s` that starts after its leading
   * whitespace and ends before its trailing whitespace.
   */
  function Strip(s: seq<char>): (r: seq<char>)
    ensures Trimmed(r)
    ensures SpaceRunEnd(s, 0) + |r| <= |s|
    ensures r == s[SpaceRunEnd(s, 0)..SpaceRunEnd(s, 0) + |r|]
    ensures forall k | SpaceRunEnd(s, 0) + |r| <= k < |s| :: IsSpace(s[k])
  {
    TrimEnd(TrimStart(s))
  }

  /** Stripping leaves nothing exactly when the text is whitespace only. */
  lemma StripEmpty(s: seq<char>)
    ensures Strip(s) == [] <==> forall k | 0 <= k < |s| :: IsSpace(s[k])
  {
    var r := Strip(s);
    if r != [] {
      assert s[SpaceRunEnd(s, 0)] == r[0];
    }
  }

  /** The character predicate "is `m`", as a value that `Without` can take. */
  function Is(m: char): char -> bool {
    c => c == m
  }

  /** `s` without the characters for which `drop` holds, in order. */
  function Without(s: seq<char>, drop: char -> bool): (r: seq<char>)
    ensures |r| <= |s|
  {
    if |s| == 0 then []
    else (if drop(s[0]) then [] else [s[0]]) + Without(s[1..], drop)
  }

  /** The filtered text holds exactly the kept characters of `s`. */
  lemma {:induction false} WithoutMembers(s: seq<char>, drop: char -> bool, c: char)
    ensures c in Without(s, drop) <==> c in s && !drop(c)
  {
    if |s| > 0 {
      WithoutMembers(s[1..], drop, c);
      assert s == [s[0]] + s[1..];
    }
  }

  lemma {:induction false} WithoutConcat(a: seq<char>, b: seq<char>, drop: char -> bool)
    ensures Without(a + b, drop) == Without(a, drop) + Without(b, drop)
  {
    if |a| > 0 {
      assert (a + b)[1..] == a[1..] + b;
      WithoutConcat(a[1..], b, drop);
    } else {
      assert a + b == b;
    }
  }

  /** Unfolds `Without` one character into a suffix of `s`. */
  lemma WithoutStep(s: seq<char>, i: nat, drop: char -> bool)
    requires i < |s|
    ensures Without(s[i..], drop) == (if drop(s[i]) then [] else [s[i]]) + Without(s[i + 1..], drop)
  {
    assert s[i..][1..] == s[i + 1..];
  }

  /** A text with nothing to drop is its own filtered text. */
  lemma {:induction false} WithoutNone(s: seq<char>, drop: char -> bool)
    requires forall k | 0 <= k < |s| :: !drop(s[k])
    ensures Without(s, drop) == s
    decreases |s|
  {
    if |s| > 0 {
      WithoutNone(s[1..], drop);
      assert s == [s[0]] + s[1..];
    }
  }

  /** Filtering a text that starts with characters to keep. */
  lemma WithoutKept(x: seq<char>, rest: seq<char>, drop: char -> bool)
    requires forall k | 0 <= k < |x| :: !drop(x[k])
    ensures Without(x + rest, drop) == x + Without(rest, drop)
  {
    WithoutConcat(x, rest, drop);
    WithoutNone(x, drop);
  }

  /** Filtering a text that starts with the character `c`. */
  lemma WithoutCons(c: char, rest: seq<char>, drop: char -> bool)
    ensures Without([c] + rest, drop) == (if drop(c) then [] else [c]) + Without(rest, drop)
  {
    assert ([c] + rest)[0] == c && ([c] + rest)[1..] == rest;
  }

  /** Skipping a stretch of dropped characters does not change the filtered text. */
  lemma {:induction false} WithoutSkip(s: seq<char>, i: nat, j: nat, drop: char -> bool)
    requires i <= j <= |s|
    requires forall k | i <= k < j :: drop(s[k])
    ensures Without(s[i..], drop) == Without(s[j..], drop)
    decreases j - i
  {
    if i < j {
      WithoutStep(s, i, drop);
      WithoutSkip(s, i + 1, j, drop);
    }
  }

  /** Whitespace before `a` and from `b` on filters away. */
  lemma SkipBoth(s: seq<char>, a: nat, b: nat)
    requires a <= b <= |s|
    requires forall k | 0 <= k < a :: IsSpace(s[k])
    requires forall k | b <= k < |s| :: IsSpace(s[k])
    ensures Without(s, IsSpace) == Without(s[a..], IsSpace)
    ensures Without(s[b..], IsSpace) == []
  {
    WithoutSkip(s, 0, a, IsSpace);
    WithoutSkip(s, b, |s|, IsSpace);
    assert s[0..] == s && s[|s|..] == [];
  }

  /** The text after its leading whitespace is the stripped text followed by the trailing whitespace. */
  lemma StripSplit(s: seq<char>)
    ensures s[SpaceRunEnd(s, 0)..] == Strip(s) + s[SpaceRunEnd(s, 0) + |Strip(s)|..]
  {
    var a := SpaceRunEnd(s, 0);
    var b := a + |Strip(s)|;
    assert s[a..] == s[a..b] + s[b..];
  }

  /** Stripping removes nothing but whitespace. */
  lemma StripSpoken(s: seq<char>)
    ensures Without(Strip(s), IsSpace) == Without(s, IsSpace)
  {
    var a := SpaceRunEnd(s, 0);
    var r := Strip(s);
    var b := a + |r|;
    SkipBoth(s, a, b);
    StripSplit(s);
    WithoutConcat(r, s[b..], IsSpace);
  }

  /** Filtering by a finer class and then by a coarser one is filtering by the coarser one. */
  lemma {:induction false} WithoutFiner(s: seq<char>, fine: char -> bool, coarse: char -> bool)
    requires forall c :: fine(c) ==> coarse(c)
    ensures Without(Without(s, fine), coarse) == Without(s, coarse)
    decreases |s|
  {
    if |s| > 0 {
      WithoutFiner(s[1..], fine, coarse);
      var head := if fine(s[0]) then [] else [s[0]];
      WithoutConcat(head, Without(s[1..], fine), coarse);
      assert Without(head, coarse) == if coarse(s[0]) then [] else [s[0]] by {
        if head != [] {
          assert head[1..] == [];
        }
      }
    }
  }

  /** Texts that differ only in a finer class differ only in a coarser one. */
  lemma WithoutWiden(a: seq<char>, b: seq<char>, fine: char -> bool, coarse: char -> bool)
    requires forall c :: fine(c) ==> coarse(c)
    requires Without(a, fine) == Without(b, fine)
    ensures Without(a, coarse) == Without(b, coarse)
  {
    WithoutFiner(a, fine, coarse);
    WithoutFiner(b, fine, coarse);
  }

  /** `a` can be obtained from `b` by deleting characters. */
  ghost predicate Subseq(a: seq<char>, b: seq<char>)
    decreases |b|
  {
    |a| == 0 || (|b| > 0 && ((a[0] == b[0] && Subseq(a[1..], b[1..])) || Subseq(a, b[1..])))
  }

  lemma {:induction false} SubseqDrop(a: seq<char>, z: seq<char>, b: seq<char>)
    requires Subseq(a, b)
    ensures Subseq(a, z + b)
    decreases |z|
  {
    if |z| == 0 {
      assert z + b == b;
    } else if |a| > 0 {
      assert (z + b)[1..] == z[1..] + b;
      SubseqDrop(a, z[1..], b);
    }
  }

  lemma {:induction false} SubseqKeep(x: seq<char>, a: seq<char>, b: seq<char>)
    requires Subseq(a, b)
    ensures Subseq(x + a, x + b)
    decreases |x|
  {
    if |x| == 0 {
      assert x + a == a && x + b == b;
    } else {
      SubseqKeep(x[1..], a, b);
      assert (x + a)[1..] == x[1..] + a;
      assert (x + b)[1..] == x[1..] + b;
      assert (x + a)[0] == (x + b)[0];
    }
  }

  /** A subsequence of a subsequence is a subsequence. */
  lemma {:induction false} SubseqTrans(a: seq<char>, b: seq<char>, c: seq<char>)
    requires Subseq(a, b) && Subseq(b, c)
    ensures Subseq(a, c)
    decreases |c|
  {
    if |a| > 0 {
      if Subseq(b, c[1..]) {
        SubseqTrans(a, b, c[1..]);
      } else if a[0] == b[0] && Subseq(a[1..], b[1..]) {
        SubseqTrans(a[1..], b[1..], c[1..]);
      } else {
        SubseqTrans(a, b[1..], c[1..]);
      }
    }
  }

  /** Deleting characters commutes with filtering: the filtered subsequence is a subsequence of the filtered text. */
  lemma {:induction false} SubseqWithout(a: seq<char>, b: seq<char>, drop: char -> bool)
    requires Subseq(a, b)
    ensures Subseq(Without(a, drop), Without(b, drop))
    decreases |b|
  {
    if |a| > 0 {
      var hb := if drop(b[0]) then [] else [b[0]];
      var wb := Without(b[1..], drop);
      if a[0] == b[0] && Subseq(a[1..], b[1..]) {
        SubseqWithout(a[1..], b[1..], drop);
        SubseqKeep(hb, Without(a[1..], drop), wb);
      } else {
        SubseqWithout(a, b[1..], drop);
        SubseqDrop(Without(a, drop), hb, wb);
      }
    }
  }

  /**
   * Copying `s[i]` in front of a rewrite of `s[i + 1..]` keeps the filtered
   * text, and the whole suffix when the rest was copied too.
   */
  lemma CopyFiltered(s: seq<char>, i: nat, rest: seq<char>, drop: char -> bool)
    requires i < |s| && Without(rest, drop) == Without(s[i + 1..], drop)
    ensures Without([s[i]] + rest, drop) == Without(s[i..], drop)
    ensures rest == s[i + 1..] ==> [s[i]] + rest == s[i..]
  {
    assert s[i..] == [s[i]] + s[i + 1..];
    WithoutConcat([s[i]], rest, drop);
    WithoutStep(s, i, drop);
  }

  /** Copying `s[i]` in front of a subsequence of `s[i + 1..]` keeps a subsequence of `s[i..]`. */
  lemma CopyHead(s: seq<char>, i: nat, rest: seq<char>)
    requires i < |s| && Subseq(rest, s[i + 1..])
    ensures Subseq([s[i]] + rest, s[i..])
    ensures rest == s[i + 1..] ==> [s[i]] + rest == s[i..]
  {
    assert s[i..] == [s[i]] + s[i + 1..];
    SubseqKeep([s[i]], rest, s[i + 1..]);
  }

  /** Both of the above: what the copying branch of a substitution needs. */
  lemma KeepHead(s: seq<char>, i: nat, rest: seq<char>, drop: char -> bool)
    requires i < |s| && Subseq(rest, s[i + 1..])
    requires Without(rest, drop) == Without(s[i + 1..], drop)
    ensures Subseq([s[i]] + rest, s[i..])
    ensures Without([s[i]] + rest, drop) == Without(s[i..], drop)
    ensures rest == s[i + 1..] ==> [s[i]] + rest == s[i..]
  {
    CopyHead(s, i, rest);
    CopyFiltered(s, i, rest, drop);
  }

  // ---------------------------------------------------------------------
  // Collapsing runs

  /** End of the maximal run of characters satisfying `p` that starts at `i`. */
  function RunEnd(s: seq<char>, i: nat, p: char -> bool): (j: nat)
    requires i <= |s|
    ensures i <= j <= |s|
    ensures forall k | i <= k < j :: p(s[k])
    ensures j == |s| || !p(s[j])
    decreases |s| - i
  {
    if i < |s| && p(s[i]) then RunEnd(s, i + 1, p) else i
  }

  /**
   * What a substitution `re.sub(P{min,}, repl, text)` does, stated run by run
   * rather than by scanning: from `i` on, each maximal run of at least `min`
   * characters satisfying `p` becomes `repl`, and every other character,
   * shorter runs included, is kept.
   */
  function CollapseRuns(s: seq<char>, i: nat, p: char -> bool, min: nat, repl: seq<char>): seq<char>
    requires i <= |s|
    decreases |s| - i
  {
    if i == |s| then []
    else if p(s[i]) then
      var j := RunEnd(s, i, p);
      (if j - i >= min then repl else s[i..j]) + CollapseRuns(s, j, p, min, repl)
    else [s[i]] + CollapseRuns(s, i + 1, p, min, repl)
  }

  /** The whitespace run is the run of `IsSpace`. */
  lemma {:induction false} SpaceRunIsRun(s: seq<char>, i: nat)
    requires i <= |s|
    ensures SpaceRunEnd(s, i) == RunEnd(s, i, IsSpace)
    decreases |s| - i
  {
    if i < |s| && IsSpace(s[i]) {
      SpaceRunIsRun(s, i + 1);
    }
  }

  /** The run of one character is the run of `Is` of it. */
  lemma {:induction false} CharRunIsRun(s: seq<char>, i: nat, c: char)
    requires i <= |s|
    ensures CharRunEnd(s, i, c) == RunEnd(s, i, Is(c))
    decreases |s| - i
  {
    if i < |s| && s[i] == c {
      CharRunIsRun(s, i + 1, c);
    }
  }

  // ---------------------------------------------------------------------
  // Texts that agree from an index on

  /** A slice is its first character followed by the rest of it. */
  lemma SliceCons(s: seq<char>, i: nat, k: nat, rest: seq<char>)
    requires i < k <= |s|
    ensures [s[i]] + (s[i + 1..k] + rest) == s[i..k] + rest
  {
    assert s[i..k] == [s[i]] + s[i + 1..k];
  }

  /** An empty slice adds nothing. */
  lemma SliceEmpty(s: seq<char>, i: nat, rest: seq<char>)
    requires i <= |s|
    ensures s[i..i] + rest == rest
  {
  }

  /** Appending nothing leaves a text as it is. */
  lemma AppendNothing(r: seq<char>)
    ensures r + [] == r
  {
  }

  /** Where `s` from `i` on is `t` from `j` on, their next characters agree. */
  lemma SuffixHead(s: seq<char>, i: nat, t: seq<char>, j: nat)
    requires i < |s| && j <= |t| && s[i..] == t[j..]
    ensures j < |t| && s[i] == t[j]
  {
    assert s[i] == s[i..][0];
    assert t[j] == t[j..][0];
  }

  /** Where `s` from `i` on is `t` from `j` on, they agree `n` further on too. */
  lemma SuffixDrop(s: seq<char>, i: nat, t: seq<char>, j: nat, n: nat)
    requires i + n <= |s| && j <= |t| && s[i..] == t[j..]
    ensures j + n <= |t| && s[i + n..] == t[j + n..]
  {
    assert s[i + n..] == s[i..][n..];
    assert t[j + n..] == t[j..][n..];
  }

  /** Where `s` from `i` on is `t` from `j` on, a word is found at one place if and only if at the other. */
  lemma SuffixHasAt(s: seq<char>, i: nat, t: seq<char>, j: nat, w: seq<char>)
    requires i <= |s| && j <= |t| && s[i..] == t[j..]
    ensures HasAt(s, i, w) == HasAt(t, j, w)
  {
    assert |s| - i == |t| - j;
    if i + |w| <= |s| {
      assert s[i..i + |w|] == s[i..][..|w|];
      assert t[j..j + |w|] == t[j..][..|w|];
    }
  }

  /** A whitespace run depends only on the text from where it starts. */
  lemma {:induction false} SpaceRunSuffix(s: seq<char>, i: nat, t: seq<char>, j: nat)
    requires i <= |s| && j <= |t| && s[i..] == t[j..]
    ensures SpaceRunEnd(s, i) - i == SpaceRunEnd(t, j) - j
    decreases |s| - i
  {
    if i < |s| {
      SuffixHead(s, i, t, j);
      SuffixDrop(s, i, t, j, 1);
      SpaceRunSuffix(s, i + 1, t, j + 1);
    } else {
      assert |t| == j;
    }
  }

  /** A run of one character depends only on the text from where it starts. */
  lemma {:induction false} CharRunSuffix(s: seq<char>, i: nat, t: seq<char>, j: nat, c: char)
    requires i <= |s| && j <= |t| && s[i..] == t[j..]
    ensures CharRunEnd(s, i, c) - i == CharRunEnd(t, j, c) - j
    decreases |s| - i
  {
    if i < |s| {
      SuffixHead(s, i, t, j);
      SuffixDrop(s, i, t, j, 1);
      CharRunSuffix(s, i + 1, t, j + 1, c);
    } else {
      assert |t| == j;
    }
  }
}
