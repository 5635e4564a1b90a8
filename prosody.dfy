/**
 * `enhance_punctuation_pauses` of server.py: pause spacing after punctuation,
 * with every `...` hidden behind a placeholder while it runs. As in module
 * Markdown, each `re.sub` is a function `...From(s, i)` over the suffix of the
 * original text that starts at `i`; the two `str.replace` calls have the same
 * shape.
 */
module Prosody {
  import opened Chars

  /** The literal that hides an ellipsis while the spacing substitutions run. */
  const Placeholder: seq<char> := "___ELLIPSIS___"

  // ---------------------------------------------------------------------
  // Hiding and restoring the ellipsis

  /** No three periods in a row. */
  ghost predicate NoEllipsis(s: seq<char>) {
    forall p | 0 <= p < |s| - 2 :: !(s[p] == '.' && s[p + 1] == '.' && s[p + 2] == '.')
  }

  /** `s` holds no placeholder. */
  ghost predicate NoPlaceholder(s: seq<char>) {
    forall p | 0 <= p :: !HasAt(s, p, Placeholder)
  }

  /**
   * `text.replace('...', '___ELLIPSIS___')`: non-overlapping, left to right.
   * No ellipsis is left; a period, or two, at the head of the result were
   * there before.
   */
  function HideFrom(s: seq<char>, i: nat): (r: seq<char>)
    requires i <= |s|
    ensures |r| == 0 <==> i == |s|
    ensures |r| > 0 && r[0] == '.' ==> s[i] == '.'
    ensures |r| > 1 && r[0] == '.' && r[1] == '.' ==> i + 1 < |s| && s[i + 1] == '.'
    ensures NoEllipsis(r)
    decreases |s| - i
  {
    if i == |s| then []
    else if HasAt(s, i, "...") then
      var rest := HideFrom(s, i + 3);
      HideDots(rest);
      Placeholder + rest
    else
      var rest := HideFrom(s, i + 1);
      HideChar(s, i, rest);
      [s[i]] + rest
  }

  /** The replacing case of `HideFrom`: the placeholder holds no period. */
  lemma HideDots(rest: seq<char>)
    requires NoEllipsis(rest)
    ensures Placeholder[0] != '.' && NoEllipsis(Placeholder + rest)
  {
    var r := Placeholder + rest;
    assert forall p | 0 <= p < |Placeholder| :: r[p] == Placeholder[p] != '.';
    assert forall p | |Placeholder| <= p < |r| :: r[p] == rest[p - |Placeholder|];
  }

  /** The copying case of `HideFrom`: a copied period cannot complete an ellipsis. */
  lemma HideChar(s: seq<char>, i: nat, rest: seq<char>)
    requires i < |s| && !HasAt(s, i, "...")
    requires NoEllipsis(rest)
    requires |rest| > 0 && rest[0] == '.' ==> i + 1 < |s| && s[i + 1] == '.'
    requires |rest| > 1 && rest[0] == '.' && rest[1] == '.' ==> i + 2 < |s| && s[i + 2] == '.'
    ensures NoEllipsis([s[i]] + rest)
  {
    var r := [s[i]] + rest;
    assert forall p | 1 <= p < |r| :: r[p] == rest[p - 1];
  }

  /**
   * `text.replace('___ELLIPSIS___', '...')`: non-overlapping, left to right.
   * The head of the result is the head of the text, or the first period of a
   * restored ellipsis.
   */
  function RestoreFrom(t: seq<char>, i: nat): (r: seq<char>)
    requires i <= |t|
    ensures |r| == 0 <==> i == |t|
    ensures i < |t| ==> r[0] == t[i] || (r[0] == '.' && t[i] == '_')
    decreases |t| - i
  {
    if i == |t| then []
    else if HasAt(t, i, Placeholder) then "..." + RestoreFrom(t, i + |Placeholder|)
    else [t[i]] + RestoreFrom(t, i + 1)
  }

  /**
   * Restoring leaves no placeholder; a head of the result without periods was
   * there before, which is what the scan one character earlier needs.
   */
  lemma {:induction false} RestoreLeavesNone(t: seq<char>, i: nat)
    requires i <= |t|
    ensures forall w | '.' !in w :: HasAt(RestoreFrom(t, i), 0, w) ==> HasAt(t, i, w)
    ensures NoPlaceholder(RestoreFrom(t, i))
    decreases |t| - i
  {
    if i < |t| {
      if HasAt(t, i, Placeholder) {
        RestoreLeavesNone(t, i + |Placeholder|);
        RestoreDotsHead(t, i, RestoreFrom(t, i + |Placeholder|));
      } else {
        RestoreLeavesNone(t, i + 1);
        RestoreCharHead(t, i, RestoreFrom(t, i + 1));
      }
    } else {
      assert forall w | HasAt(RestoreFrom(t, i), 0, w) :: w == [];
    }
  }

  /** Finding `w` in `x + rest` past the end of `x` is finding it in `rest`. */
  lemma HasAtShift(x: seq<char>, rest: seq<char>, p: nat, w: seq<char>)
    requires |x| <= p
    ensures HasAt(x + rest, p, w) <==> HasAt(rest, p - |x|, w)
  {
    if p + |w| <= |x + rest| {
      assert (x + rest)[p..p + |w|] == rest[p - |x|..p - |x| + |w|];
    }
  }

  /** Placeholders found in `x + rest` all lie in `rest`. */
  lemma NoPlaceholderConcat(x: seq<char>, rest: seq<char>)
    requires NoPlaceholder(rest)
    requires forall p | 0 <= p < |x| :: !HasAt(x + rest, p, Placeholder)
    ensures NoPlaceholder(x + rest)
  {
    forall p | |x| <= p {
      HasAtShift(x, rest, p, Placeholder);
    }
  }

  /** The replacing case of `RestoreFrom`: the restored periods hold no placeholder. */
  lemma RestoreDotsHead(t: seq<char>, i: nat, rest: seq<char>)
    requires HasAt(t, i, Placeholder) && NoPlaceholder(rest)
    ensures forall w | '.' !in w :: HasAt("..." + rest, 0, w) ==> HasAt(t, i, w)
    ensures NoPlaceholder("..." + rest)
  {
    var r := "..." + rest;
    forall w | '.' !in w && |w| > 0 ensures !HasAt(r, 0, w) {
      if |w| <= |r| {
        assert w[0] in w && r[0..|w|][0] == '.';
      }
    }
    assert '.' !in Placeholder;
    forall p | 0 <= p < 3 ensures !HasAt(r, p, Placeholder) {
      if p + |Placeholder| <= |r| {
        assert r[p..p + |Placeholder|][2 - p] == '.' != Placeholder[2 - p];
      }
    }
    NoPlaceholderConcat("...", rest);
  }

  /** The copying case of `RestoreFrom`: a placeholder at the head would have been replaced. */
  lemma RestoreCharHead(t: seq<char>, i: nat, rest: seq<char>)
    requires i < |t| && !HasAt(t, i, Placeholder)
    requires NoPlaceholder(rest)
    requires forall w | '.' !in w :: HasAt(rest, 0, w) ==> HasAt(t, i + 1, w)
    ensures forall w | '.' !in w :: HasAt([t[i]] + rest, 0, w) ==> HasAt(t, i, w)
    ensures NoPlaceholder([t[i]] + rest)
  {
    var r := [t[i]] + rest;
    forall w | '.' !in w && HasAt(r, 0, w) ensures HasAt(t, i, w) {
      if |w| > 0 {
        assert w[0] == r[0] == t[i];
        assert r[1..|w|] == rest[..|w| - 1];
        assert HasAt(rest, 0, w[1..]);
        assert t[i..i + |w|] == [t[i]] + t[i + 1..i + 1 + |w[1..]|];
      }
    }
    assert '.' !in Placeholder;
    NoPlaceholderConcat([t[i]], rest);
  }

  /** Restoring depends only on the text from `i` on. */
  lemma {:induction false} RestoreSuffix(t: seq<char>, i: nat, u: seq<char>)
    requires i <= |t| && t[i..] == u
    ensures RestoreFrom(t, i) == RestoreFrom(u, 0)
    decreases |t| - i
  {
    if i < |t| {
      assert HasAt(t, i, Placeholder) == HasAt(u, 0, Placeholder) by {
        if i + |Placeholder| <= |t| {
          assert t[i..i + |Placeholder|] == u[0..|Placeholder|];
        }
      }
      if HasAt(t, i, Placeholder) {
        RestoreSuffix(t, i + |Placeholder|, u[|Placeholder|..]);
        RestoreSuffix(u, |Placeholder|, u[|Placeholder|..]);
      } else {
        RestoreSuffix(t, i + 1, u[1..]);
        RestoreSuffix(u, 1, u[1..]);
      }
    }
  }

  /** The `...` case of `RestoreHidden`. */
  lemma RestoreHiddenDots(s: seq<char>, i: nat)
    requires HasAt(s, i, "...")
    requires RestoreFrom(HideFrom(s, i + 3), 0) == s[i + 3..]
    ensures RestoreFrom(HideFrom(s, i), 0) == s[i..]
  {
    var rest := HideFrom(s, i + 3);
    var h := Placeholder + rest;
    assert HideFrom(s, i) == h;
    assert h[..|Placeholder|] == Placeholder && h[|Placeholder|..] == rest;
    assert RestoreFrom(h, 0) == "..." + RestoreFrom(h, |Placeholder|);
    RestoreSuffix(h, |Placeholder|, rest);
    assert s[i..] == "..." + s[i + 3..];
  }

  /** The copying case of `RestoreHidden`. */
  lemma RestoreHiddenChar(s: seq<char>, i: nat)
    requires i < |s| && !HasAt(s, i, "...") && s[i] != '_'
    requires RestoreFrom(HideFrom(s, i + 1), 0) == s[i + 1..]
    ensures RestoreFrom(HideFrom(s, i), 0) == s[i..]
  {
    var rest := HideFrom(s, i + 1);
    var h := [s[i]] + rest;
    assert HideFrom(s, i) == h;
    assert h[0] != Placeholder[0];
    assert RestoreFrom(h, 0) == [s[i]] + RestoreFrom(h, 1);
    assert h[1..] == rest;
    RestoreSuffix(h, 1, rest);
    assert s[i..] == [s[i]] + s[i + 1..];
  }

  /**
   * Restoring undoes hiding: on a text without underscores, every `...` comes
   * back verbatim and nothing else changes.
   */
  lemma {:induction false} RestoreHidden(s: seq<char>, i: nat)
    requires i <= |s|
    requires forall k | 0 <= k < |s| :: s[k] != '_'
    ensures RestoreFrom(HideFrom(s, i), 0) == s[i..]
    decreases |s| - i
  {
    if i < |s| {
      if HasAt(s, i, "...") {
        RestoreHidden(s, i + 3);
        RestoreHiddenDots(s, i);
      } else {
        RestoreHidden(s, i + 1);
        RestoreHiddenChar(s, i);
      }
    }
  }

  // ---------------------------------------------------------------------
  // Pause spacing

  /** At index `j`, `s` holds exactly `k` spaces followed by a non-whitespace character or the end. */
  ghost predicate GapAt(s: seq<char>, j: nat, k: nat) {
    && j + k <= |s|
    && (forall m | j <= m < j + k :: s[m] == ' ')
    && (j + k == |s| || !IsSpace(s[j + k]))
  }

  /** Every character of `marks` at index `i` or later is followed by a gap of exactly `k` spaces. */
  ghost predicate PausedFrom(s: seq<char>, i: nat, marks: set<char>, k: nat) {
    forall p | i <= p < |s| && s[p] in marks :: GapAt(s, p + 1, k)
  }

  /** At index `j`, `s` holds at least `n` spaces. */
  ghost predicate BlanksAt(s: seq<char>, j: nat, n: nat) {
    j + n <= |s| && forall m | j <= m < j + n :: s[m] == ' '
  }

  /** No four spaces in a row from index `i` on. */
  ghost predicate NoSpaceRun4From(s: seq<char>, i: nat) {
    forall p | i <= p :: !BlanksAt(s, p, 4)
  }

  /** Characters that are neither whitespace nor part of the placeholder. */
  ghost predicate Plain(marks: set<char>) {
    forall c | c in marks :: !IsSpace(c) && c !in Placeholder
  }

  /**
   * `re.sub(r'([mark])(?:\s+|(?=[^\s])|$)', r'\1' + width spaces, text)`: each
   * mark, with the whitespace run after it, becomes the mark and `width`
   * spaces. One of the three alternatives always matches, so every mark is
   * rewritten.
   */
  function SpaceAfterFrom(s: seq<char>, i: nat, marks: set<char>, width: nat): (r: seq<char>)
    requires i <= |s|
    ensures |r| == 0 <==> i == |s|
    ensures i < |s| ==> r[0] == s[i]
    decreases |s| - i
  {
    if i == |s| then []
    else if s[i] in marks then [s[i]] + Repeat(' ', width) + SpaceAfterFrom(s, SpaceRunEnd(s, i + 1), marks, width)
    else [s[i]] + SpaceAfterFrom(s, i + 1, marks, width)
  }

  /** After `SpaceAfterFrom`, every mark is followed by a gap of exactly `width` spaces. */
  lemma {:induction false} SpaceAfterPauses(s: seq<char>, i: nat, marks: set<char>, width: nat)
    requires i <= |s| && Plain(marks)
    ensures PausedFrom(SpaceAfterFrom(s, i, marks, width), 0, marks, width)
    decreases |s| - i
  {
    if i < |s| {
      if s[i] in marks {
        var j := SpaceRunEnd(s, i + 1);
        var rest := SpaceAfterFrom(s, j, marks, width);
        var x := [s[i]] + Repeat(' ', width);
        SpaceAfterPauses(s, j, marks, width);
        assert SpaceAfterFrom(s, i, marks, width) == x + rest;
        assert GapAt(x + rest, 1, width);
        PausedConcat(x, rest, marks, width);
      } else {
        var rest := SpaceAfterFrom(s, i + 1, marks, width);
        SpaceAfterPauses(s, i + 1, marks, width);
        assert SpaceAfterFrom(s, i, marks, width) == [s[i]] + rest;
        PausedConcat([s[i]], rest, marks, width);
      }
    }
  }

  lemma GapShift(x: seq<char>, rest: seq<char>, j: nat, k: nat)
    requires GapAt(rest, j, k)
    ensures GapAt(x + rest, |x| + j, k)
  {
    var r := x + rest;
    assert forall m | |x| + j <= m < |x| + j + k :: r[m] == rest[m - |x|];
  }

  /** One more space in front of a gap widens it by one. */
  lemma GapCons(rest: seq<char>, k: nat)
    requires GapAt(rest, 0, k)
    ensures GapAt([' '] + rest, 0, k + 1)
  {
    var r := [' '] + rest;
    assert forall m | 1 <= m < k + 1 :: r[m] == rest[m - 1];
  }

  lemma GapUncons(s: seq<char>, i: nat, k: nat)
    requires k > 0 && GapAt(s, i, k)
    ensures s[i] == ' ' && GapAt(s, i + 1, k - 1)
  {
  }

  /** Marks inside a prefix `x` that are all paused, and a paused `rest`, give a paused `x + rest`. */
  lemma PausedConcat(x: seq<char>, rest: seq<char>, marks: set<char>, k: nat)
    requires PausedFrom(rest, 0, marks, k)
    requires forall p | 0 <= p < |x| && x[p] in marks :: GapAt(x + rest, p + 1, k)
    ensures PausedFrom(x + rest, 0, marks, k)
  {
    var r := x + rest;
    forall p | 0 <= p < |r| && r[p] in marks ensures GapAt(r, p + 1, k) {
      if p >= |x| {
        assert r[p] == rest[p - |x|];
        GapShift(x, rest, p - |x| + 1, k);
      }
    }
  }

  lemma PausedSuffix(s: seq<char>, i: nat, j: nat, marks: set<char>, k: nat)
    requires i <= j && PausedFrom(s, i, marks, k)
    ensures PausedFrom(s, j, marks, k)
  {
  }

  /** `SpaceAfterFrom` keeps a gap that starts where it starts. */
  lemma {:induction false} SpaceAfterGap(s: seq<char>, i: nat, marks: set<char>, width: nat, k: nat)
    requires i <= |s| && Plain(marks) && GapAt(s, i, k)
    ensures GapAt(SpaceAfterFrom(s, i, marks, width), 0, k)
    decreases k
  {
    if k > 0 {
      GapUncons(s, i, k);
      SpaceAfterGap(s, i + 1, marks, width, k - 1);
      assert SpaceAfterFrom(s, i, marks, width) == [' '] + SpaceAfterFrom(s, i + 1, marks, width);
      GapCons(SpaceAfterFrom(s, i + 1, marks, width), k - 1);
    }
  }

  /** `SpaceAfterFrom` for one set of marks keeps the pauses already set after another. */
  lemma {:induction false} SpaceAfterKeeps(s: seq<char>, i: nat, marks: set<char>, width: nat, other: set<char>, k: nat)
    requires i <= |s| && Plain(marks) && Plain(other) && marks !! other
    requires PausedFrom(s, i, other, k)
    ensures PausedFrom(SpaceAfterFrom(s, i, marks, width), 0, other, k)
    decreases |s| - i
  {
    if i < |s| {
      var r := SpaceAfterFrom(s, i, marks, width);
      if s[i] in marks {
        var j := SpaceRunEnd(s, i + 1);
        var rest := SpaceAfterFrom(s, j, marks, width);
        SpaceAfterKeeps(s, j, marks, width, other, k);
        assert r == ([s[i]] + Repeat(' ', width)) + rest;
        PausedConcat([s[i]] + Repeat(' ', width), rest, other, k);
      } else {
        var rest := SpaceAfterFrom(s, i + 1, marks, width);
        SpaceAfterKeeps(s, i + 1, marks, width, other, k);
        assert r == [s[i]] + rest;
        if s[i] in other {
          SpaceAfterGap(s, i + 1, marks, width, k);
          GapShift([s[i]], rest, 0, k);
        }
        PausedConcat([s[i]], rest, other, k);
      }
    }
  }

  /** A run of `n` spaces at `i` makes the maximal run from `i` at least that long. */
  lemma {:induction false} CharRunLonger(s: seq<char>, i: nat, n: nat)
    requires i <= |s|
    ensures BlanksAt(s, i, n) ==> CharRunEnd(s, i, ' ') >= i + n
    decreases n
  {
    if n > 0 && BlanksAt(s, i, n) {
      CharRunLonger(s, i + 1, n - 1);
    }
  }

  /**
   * `re.sub(r'   {2,}', '   ', text)`: the pattern is two spaces and then two
   * or more spaces, so every run of FOUR or more spaces becomes three.
   */
  function SqueezeFrom(s: seq<char>, i: nat): (r: seq<char>)
    requires i <= |s|
    ensures |r| == 0 <==> i == |s|
    ensures i < |s| ==> r[0] == s[i]
    ensures forall n | 1 <= n <= 3 :: BlanksAt(r, 0, n) ==> BlanksAt(s, i, n)
    ensures NoSpaceRun4From(r, 0)
    decreases |s| - i
  {
    if i == |s| then []
    else if CharRunEnd(s, i, ' ') >= i + 4 then
      var j := CharRunEnd(s, i, ' ');
      var rest := SqueezeFrom(s, j);
      var r := Repeat(' ', 3) + rest;
      assert j < |s| ==> r[3] == s[j] != ' ';
      assert forall p | 0 <= p <= 3 :: BlanksAt(r, p, 4) ==> 3 < |r| && r[3] == ' ';
      forall p | 4 <= p ensures BlanksAt(r, p, 4) ==> BlanksAt(rest, p - 3, 4) {
        assert forall m | p - 3 <= m < p + 1 :: p + 4 <= |r| ==> rest[m] == r[m + 3];
      }
      r
    else
      var rest := SqueezeFrom(s, i + 1);
      var r := [s[i]] + rest;
      forall n | 1 <= n <= 4 ensures BlanksAt(r, 0, n) ==> s[i] == ' ' && BlanksAt(rest, 0, n - 1) {
        assert r[0] == s[i];
        assert forall m | 0 <= m < n - 1 :: n <= |r| ==> rest[m] == r[m + 1];
      }
      assert forall n | 1 <= n <= 4 :: s[i] == ' ' && BlanksAt(s, i + 1, n - 1) ==> BlanksAt(s, i, n);
      CharRunLonger(s, i, 4);
      forall p | 1 <= p ensures BlanksAt(r, p, 4) ==> BlanksAt(rest, p - 1, 4) {
        assert forall m | p - 1 <= m < p + 3 :: p + 4 <= |r| ==> rest[m] == r[m + 1];
      }
      r
  }

  /** Through a run of spaces too short to match, `SqueezeFrom` copies it. */
  lemma {:induction false} SqueezeShortRun(s: seq<char>, i: nat)
    requires i <= |s| && CharRunEnd(s, i, ' ') < i + 4
    ensures SqueezeFrom(s, i) == s[i..CharRunEnd(s, i, ' ')] + SqueezeFrom(s, CharRunEnd(s, i, ' '))
    decreases CharRunEnd(s, i, ' ') - i
  {
    var j := CharRunEnd(s, i, ' ');
    if i < j {
      assert CharRunEnd(s, i + 1, ' ') == j;
      SqueezeCopy(s, i);
      SqueezeShortRun(s, i + 1);
      SliceCons(s, i, j, SqueezeFrom(s, j));
    } else {
      SliceEmpty(s, i, SqueezeFrom(s, j));
    }
  }

  /**
   * `SqueezeFrom` agrees with the run-by-run reference: every maximal run of
   * four or more spaces becomes exactly three, and every other character,
   * shorter runs included, is kept.
   */
  lemma {:induction false} SqueezeRuns(s: seq<char>, i: nat)
    requires i <= |s|
    ensures SqueezeFrom(s, i) == CollapseRuns(s, i, Is(' '), 4, "   ")
    decreases |s| - i
  {
    if i < |s| {
      CharRunIsRun(s, i, ' ');
      var j := RunEnd(s, i, Is(' '));
      if s[i] == ' ' {
        SqueezeRuns(s, j);
        if j < i + 4 {
          SqueezeShortRun(s, i);
        } else {
          assert Repeat(' ', 3) == "   ";
        }
      } else {
        SqueezeRuns(s, i + 1);
      }
    }
  }

  /** A gap of exactly `k` spaces at `i` is a maximal run of `k` spaces. */
  lemma {:induction false} GapRun(s: seq<char>, i: nat, k: nat)
    requires GapAt(s, i, k)
    ensures CharRunEnd(s, i, ' ') == i + k
    decreases k
  {
    if k > 0 {
      GapRun(s, i + 1, k - 1);
    }
  }

  /** Squeezing keeps a gap of at most three spaces that starts where it starts. */
  lemma {:induction false} SqueezeGap(s: seq<char>, i: nat, k: nat)
    requires k <= 3 && GapAt(s, i, k)
    ensures GapAt(SqueezeFrom(s, i), 0, k)
    decreases k
  {
    if k > 0 {
      GapRun(s, i, k);
      GapUncons(s, i, k);
      SqueezeGap(s, i + 1, k - 1);
      assert SqueezeFrom(s, i) == [' '] + SqueezeFrom(s, i + 1);
      GapCons(SqueezeFrom(s, i + 1), k - 1);
    }
  }

  /** Squeezing keeps every pause of at most three spaces after the marks. */
  lemma {:induction false} SqueezeKeeps(s: seq<char>, i: nat, marks: set<char>, k: nat)
    requires i <= |s| && k <= 3 && Plain(marks) && PausedFrom(s, i, marks, k)
    ensures PausedFrom(SqueezeFrom(s, i), 0, marks, k)
    decreases |s| - i
  {
    if i < |s| {
      var r := SqueezeFrom(s, i);
      if CharRunEnd(s, i, ' ') >= i + 4 {
        var j := CharRunEnd(s, i, ' ');
        var rest := SqueezeFrom(s, j);
        SqueezeKeeps(s, j, marks, k);
        assert r == Repeat(' ', 3) + rest;
        PausedConcat(Repeat(' ', 3), rest, marks, k);
      } else {
        var rest := SqueezeFrom(s, i + 1);
        SqueezeKeeps(s, i + 1, marks, k);
        assert r == [s[i]] + rest;
        if s[i] in marks {
          SqueezeGap(s, i + 1, k);
          GapShift([s[i]], rest, 0, k);
        }
        PausedConcat([s[i]], rest, marks, k);
      }
    }
  }

  /** Index `p` of `s` lies inside a run of three periods. */
  ghost predicate InEllipsis(s: seq<char>, p: nat)
    requires p < |s|
  {
    || (p + 2 < |s| && s[p + 1] == '.' && s[p + 2] == '.')
    || (1 <= p && p + 1 < |s| && s[p - 1] == '.' && s[p + 1] == '.')
    || (2 <= p && s[p - 1] == '.' && s[p - 2] == '.')
  }

  /** Every period is part of an ellipsis or followed by a gap of exactly three spaces. */
  ghost predicate DotsPaused(s: seq<char>) {
    forall p | 0 <= p < |s| && s[p] == '.' :: GapAt(s, p + 1, 3) || InEllipsis(s, p)
  }

  lemma DotsConcat(x: seq<char>, rest: seq<char>)
    requires DotsPaused(rest)
    requires forall p | 0 <= p < |x| && x[p] == '.' :: GapAt(x + rest, p + 1, 3) || InEllipsis(x + rest, p)
    ensures DotsPaused(x + rest)
  {
    var r := x + rest;
    forall p | |x| <= p < |r| && r[p] == '.' ensures GapAt(r, p + 1, 3) || InEllipsis(r, p) {
      var q := p - |x|;
      assert rest[q] == '.';
      if GapAt(rest, q + 1, 3) {
        GapShift(x, rest, q + 1, 3);
      } else {
        assert InEllipsis(rest, q);
        assert forall m | 0 <= m < |rest| :: r[|x| + m] == rest[m];
      }
    }
  }

  /** Restoring keeps a gap that starts where it starts. */
  lemma {:induction false} RestoreGap(t: seq<char>, i: nat, k: nat)
    requires GapAt(t, i, k)
    ensures GapAt(RestoreFrom(t, i), 0, k)
    decreases k
  {
    if k > 0 {
      GapUncons(t, i, k);
      RestoreGap(t, i + 1, k - 1);
      assert !HasAt(t, i, Placeholder) by { assert t[i] != Placeholder[0]; }
      assert RestoreFrom(t, i) == [' '] + RestoreFrom(t, i + 1);
      GapCons(RestoreFrom(t, i + 1), k - 1);
    }
  }

  /** Restoring adds no space: a run of spaces at the head of the result was there before. */
  lemma {:induction false} RestoreSpaces(t: seq<char>, i: nat, n: nat)
    requires i <= |t|
    ensures BlanksAt(RestoreFrom(t, i), 0, n) ==> BlanksAt(t, i, n)
    decreases n
  {
    var r := RestoreFrom(t, i);
    if n > 0 && BlanksAt(r, 0, n) {
      assert t[i] == ' ';
      assert !HasAt(t, i, Placeholder) by { assert t[i] != Placeholder[0]; }
      var rest := RestoreFrom(t, i + 1);
      assert r == [' '] + rest;
      assert forall m | 0 <= m < n - 1 :: rest[m] == r[m + 1];
      RestoreSpaces(t, i + 1, n - 1);
    }
  }

  /** Restoring creates no run of four spaces. */
  lemma {:induction false} RestoreNoRun4(t: seq<char>, i: nat)
    requires i <= |t| && NoSpaceRun4From(t, i)
    ensures NoSpaceRun4From(RestoreFrom(t, i), 0)
    decreases |t| - i
  {
    if i < |t| {
      var r := RestoreFrom(t, i);
      RestoreSpaces(t, i, 4);
      if HasAt(t, i, Placeholder) {
        var rest := RestoreFrom(t, i + |Placeholder|);
        RestoreNoRun4(t, i + |Placeholder|);
        assert r == "..." + rest;
        assert r[2] == '.';
        assert forall p | 0 <= p < 3 :: !BlanksAt(r, p, 4);
        forall p | 3 <= p ensures BlanksAt(r, p, 4) ==> BlanksAt(rest, p - 3, 4) {
          assert forall m | 0 <= m < |rest| :: r[m + 3] == rest[m];
        }
      } else {
        var rest := RestoreFrom(t, i + 1);
        RestoreNoRun4(t, i + 1);
        assert r == [t[i]] + rest;
        forall p | 1 <= p ensures BlanksAt(r, p, 4) ==> BlanksAt(rest, p - 1, 4) {
          assert forall m | 0 <= m < |rest| :: r[m + 1] == rest[m];
        }
      }
    }
  }

  /** Restoring keeps the pauses after marks that are not periods. */
  lemma {:induction false} RestoreKeeps(t: seq<char>, i: nat, marks: set<char>, k: nat)
    requires i <= |t| && Plain(marks) && '.' !in marks && PausedFrom(t, i, marks, k)
    ensures PausedFrom(RestoreFrom(t, i), 0, marks, k)
    decreases |t| - i
  {
    if i < |t| {
      var r := RestoreFrom(t, i);
      if HasAt(t, i, Placeholder) {
        var rest := RestoreFrom(t, i + |Placeholder|);
        RestoreKeeps(t, i + |Placeholder|, marks, k);
        assert r == "..." + rest;
        PausedConcat("...", rest, marks, k);
      } else {
        var rest := RestoreFrom(t, i + 1);
        RestoreKeeps(t, i + 1, marks, k);
        assert r == [t[i]] + rest;
        if t[i] in marks {
          RestoreGap(t, i + 1, k);
          GapShift([t[i]], rest, 0, k);
        }
        PausedConcat([t[i]], rest, marks, k);
      }
    }
  }

  /** After restoring, a period is either one of a restored `...` or a paused full stop. */
  lemma {:induction false} RestoreDots(t: seq<char>, i: nat)
    requires i <= |t| && PausedFrom(t, i, {'.'}, 3)
    ensures DotsPaused(RestoreFrom(t, i))
    decreases |t| - i
  {
    if i < |t| {
      var r := RestoreFrom(t, i);
      if HasAt(t, i, Placeholder) {
        var rest := RestoreFrom(t, i + |Placeholder|);
        RestoreDots(t, i + |Placeholder|);
        assert r == "..." + rest;
        DotsConcat("...", rest);
      } else {
        var rest := RestoreFrom(t, i + 1);
        RestoreDots(t, i + 1);
        assert r == [t[i]] + rest;
        if t[i] == '.' {
          RestoreGap(t, i + 1, 3);
          GapShift([t[i]], rest, 0, 3);
        }
        DotsConcat([t[i]], rest);
      }
    }
  }

  /** Only whitespace changes when marks are spaced. */
  lemma {:induction false} SpaceAfterRespaces(s: seq<char>, i: nat, marks: set<char>, width: nat)
    requires i <= |s|
    ensures Without(SpaceAfterFrom(s, i, marks, width), IsSpace) == Without(s[i..], IsSpace)
    decreases |s| - i
  {
    if i < |s| {
      WithoutStep(s, i, IsSpace);
      if s[i] in marks {
        var j := SpaceRunEnd(s, i + 1);
        var rest := SpaceAfterFrom(s, j, marks, width);
        SpaceAfterRespaces(s, j, marks, width);
        WithoutSkip(s, i + 1, j, IsSpace);
        WithoutSkip(Repeat(' ', width), 0, width, IsSpace);
        assert Repeat(' ', width)[width..] == [] && Repeat(' ', width)[0..] == Repeat(' ', width);
        WithoutConcat([s[i]] + Repeat(' ', width), rest, IsSpace);
        WithoutConcat([s[i]], Repeat(' ', width), IsSpace);
      } else {
        var rest := SpaceAfterFrom(s, i + 1, marks, width);
        SpaceAfterRespaces(s, i + 1, marks, width);
        WithoutConcat([s[i]], rest, IsSpace);
      }
    }
  }

  /** Only whitespace changes when long runs of spaces are squeezed. */
  lemma {:induction false} SqueezeRespaces(s: seq<char>, i: nat)
    requires i <= |s|
    ensures Without(SqueezeFrom(s, i), IsSpace) == Without(s[i..], IsSpace)
    decreases |s| - i
  {
    if i < |s| {
      if CharRunEnd(s, i, ' ') >= i + 4 {
        var j := CharRunEnd(s, i, ' ');
        var rest := SqueezeFrom(s, j);
        SqueezeRespaces(s, j);
        WithoutSkip(s, i, j, IsSpace);
        WithoutSkip(Repeat(' ', 3), 0, 3, IsSpace);
        assert Repeat(' ', 3)[3..] == [] && Repeat(' ', 3)[0..] == Repeat(' ', 3);
        WithoutConcat(Repeat(' ', 3), rest, IsSpace);
      } else {
        var rest := SqueezeFrom(s, i + 1);
        SqueezeRespaces(s, i + 1);
        WithoutStep(s, i, IsSpace);
        WithoutConcat([s[i]], rest, IsSpace);
      }
    }
  }

  const SentenceMarks: set<char> := {'.', '!', '?'}

  const ClauseMarks: set<char> := {',', ';'}

  /** The four substitutions of `enhance_punctuation_pauses` on the hidden text, before the ellipsis is restored. */
  function Respaced(hidden: seq<char>): (r: seq<char>)
    ensures |r| == 0 <==> |hidden| == 0
    ensures NoSpaceRun4From(r, 0)
  {
    var sentences := SpaceAfterFrom(hidden, 0, SentenceMarks, 3);
    var clauses := SpaceAfterFrom(sentences, 0, ClauseMarks, 2);
    SqueezeFrom(clauses, 0)
  }

  lemma MarksArePlain()
    ensures Plain(SentenceMarks) && Plain(ClauseMarks) && Plain({'!', '?'})
  {
    assert forall c | c in Placeholder :: c == '_' || ('A' <= c <= 'Z');
  }

  /**
   * `enhance_punctuation_pauses`, with the pause layout it promises: every `!`
   * and `?` is followed by exactly three spaces and every `,` and `;` by exactly
   * two, each time followed by a non-whitespace character or the end; every
   * period is either part of a `...` or followed by exactly three spaces
   * likewise; no four spaces are left in a row; and no placeholder is left.
   */
  function EnhancePauses(s: seq<char>): (r: seq<char>)
    ensures PausedFrom(r, 0, {'!', '?'}, 3)
    ensures PausedFrom(r, 0, ClauseMarks, 2)
    ensures DotsPaused(r)
    ensures NoSpaceRun4From(r, 0)
    ensures NoPlaceholder(r)
  {
    var hidden := HideFrom(s, 0);
    var squeezed := Respaced(hidden);
    PausesBeforeRestore(hidden);
    RestoreKeeps(squeezed, 0, {'!', '?'}, 3);
    RestoreKeeps(squeezed, 0, ClauseMarks, 2);
    RestoreDots(squeezed, 0);
    RestoreNoRun4(squeezed, 0);
    RestoreLeavesNone(squeezed, 0);
    RestoreFrom(squeezed, 0)
  }

  /** The pauses are in place before the ellipsis is restored. */
  lemma PausesBeforeRestore(hidden: seq<char>)
    ensures Plain({'!', '?'}) && Plain(ClauseMarks)
    ensures PausedFrom(Respaced(hidden), 0, {'!', '?'}, 3)
    ensures PausedFrom(Respaced(hidden), 0, {'.'}, 3)
    ensures PausedFrom(Respaced(hidden), 0, ClauseMarks, 2)
    ensures NoSpaceRun4From(Respaced(hidden), 0)
  {
    MarksArePlain();
    var sentences := SpaceAfterFrom(hidden, 0, SentenceMarks, 3);
    var clauses := SpaceAfterFrom(sentences, 0, ClauseMarks, 2);
    SpaceAfterPauses(hidden, 0, SentenceMarks, 3);
    SpaceAfterKeeps(sentences, 0, ClauseMarks, 2, SentenceMarks, 3);
    SpaceAfterPauses(sentences, 0, ClauseMarks, 2);
    SqueezeKeeps(clauses, 0, SentenceMarks, 3);
    SqueezeKeeps(clauses, 0, ClauseMarks, 2);
    var squeezed := SqueezeFrom(clauses, 0);
    assert PausedFrom(squeezed, 0, {'!', '?'}, 3);
    assert PausedFrom(squeezed, 0, {'.'}, 3);
  }

  /** Between hiding and restoring, only whitespace changes. */
  lemma RespacedOnlyWhitespace(hidden: seq<char>)
    ensures Without(Respaced(hidden), IsSpace) == Without(hidden, IsSpace)
  {
    var sentences := SpaceAfterFrom(hidden, 0, SentenceMarks, 3);
    var clauses := SpaceAfterFrom(sentences, 0, ClauseMarks, 2);
    SpaceAfterRespaces(hidden, 0, SentenceMarks, 3);
    SpaceAfterRespaces(sentences, 0, ClauseMarks, 2);
    SqueezeRespaces(clauses, 0);
    assert hidden[0..] == hidden && sentences[0..] == sentences && clauses[0..] == clauses;
  }

  // ---------------------------------------------------------------------
  // Only whitespace changes

  /**
   * `t` is a run of whole placeholders and characters other than `_`: the
   * shape of a hidden text, which the spacing substitutions keep.
   */
  ghost predicate Pieces(t: seq<char>)
    decreases |t|
  {
    if |t| == 0 then true
    else if HasAt(t, 0, Placeholder) then Pieces(t[|Placeholder|..])
    else t[0] != '_' && Pieces(t[1..])
  }

  lemma PlaceholderChars()
    ensures forall k | 0 <= k < |Placeholder| :: Placeholder[k] == '_' || 'A' <= Placeholder[k] <= 'Z'
  {
  }

  /** A character other than `_` in front of pieces. */
  lemma PiecesCons(c: char, rest: seq<char>)
    requires c != '_' && Pieces(rest)
    ensures Pieces([c] + rest)
  {
    var t := [c] + rest;
    if |Placeholder| <= |t| {
      assert t[..|Placeholder|][0] == c != Placeholder[0];
    }
    assert t[1..] == rest;
  }

  /** A placeholder in front of pieces. */
  lemma PiecesPlaceholder(rest: seq<char>)
    requires Pieces(rest)
    ensures Pieces(Placeholder + rest)
  {
    var t := Placeholder + rest;
    assert t[..|Placeholder|] == Placeholder && t[|Placeholder|..] == rest;
  }

  /** Characters other than `_` in front of pieces. */
  lemma {:induction false} PiecesPrefix(x: seq<char>, rest: seq<char>)
    requires (forall k | 0 <= k < |x| :: x[k] != '_') && Pieces(rest)
    ensures Pieces(x + rest)
    decreases |x|
  {
    if |x| > 0 {
      PiecesPrefix(x[1..], rest);
      PiecesCons(x[0], x[1..] + rest);
      assert x + rest == [x[0]] + (x[1..] + rest);
    } else {
      assert x + rest == rest;
    }
  }

  /** Pieces that start with a character other than `_` go on after it. */
  lemma PiecesTail(s: seq<char>, i: nat)
    requires i < |s| && s[i] != '_' && Pieces(s[i..])
    ensures Pieces(s[i + 1..])
  {
    assert s[i..][0] == s[i] && s[i..][1..] == s[i + 1..];
  }

  /** Skipping characters other than `_` keeps pieces. */
  lemma {:induction false} PiecesSkip(s: seq<char>, i: nat, j: nat)
    requires i <= j <= |s| && (forall k | i <= k < j :: s[k] != '_') && Pieces(s[i..])
    ensures Pieces(s[j..])
    decreases j - i
  {
    if i < j {
      PiecesTail(s, i);
      PiecesSkip(s, i + 1, j);
    }
  }

  /** Pieces that start with `_` start with a placeholder. */
  lemma PiecesUnderscore(s: seq<char>, i: nat)
    requires i < |s| && s[i] == '_' && Pieces(s[i..])
    ensures HasAt(s, i, Placeholder) && Pieces(s[i + |Placeholder|..])
  {
    var u := s[i..];
    assert u[0] == '_';
    assert HasAt(u, 0, Placeholder);
    assert u[..|Placeholder|] == s[i..i + |Placeholder|];
    assert u[|Placeholder|..] == s[i + |Placeholder|..];
  }

  /** The text that `HideFrom` produces from a text without `_` is made of pieces. */
  lemma {:induction false} HidePieces(s: seq<char>, i: nat)
    requires i <= |s| && forall k | 0 <= k < |s| :: s[k] != '_'
    ensures Pieces(HideFrom(s, i))
    decreases |s| - i
  {
    if i < |s| {
      if HasAt(s, i, "...") {
        HidePieces(s, i + 3);
        PiecesPlaceholder(HideFrom(s, i + 3));
      } else {
        HidePieces(s, i + 1);
        PiecesCons(s[i], HideFrom(s, i + 1));
      }
    }
  }

  /** Over characters that are not marks, `SpaceAfterFrom` copies. */
  lemma {:induction false} SpaceAfterCopies(s: seq<char>, i: nat, k: nat, marks: set<char>, width: nat)
    requires i <= k <= |s| && forall m | i <= m < k :: s[m] !in marks
    ensures SpaceAfterFrom(s, i, marks, width) == s[i..k] + SpaceAfterFrom(s, k, marks, width)
    decreases k - i
  {
    if i < k {
      SpaceAfterCopies(s, i + 1, k, marks, width);
      var rest := SpaceAfterFrom(s, k, marks, width);
      assert SpaceAfterFrom(s, i, marks, width) == [s[i]] + SpaceAfterFrom(s, i + 1, marks, width);
      assert s[i..k] + rest == [s[i]] + (s[i + 1..k] + rest);
    } else {
      assert s[i..k] == [];
    }
  }

  /** `SpaceAfterFrom` keeps pieces. */
  lemma {:induction false} SpaceAfterPieces(s: seq<char>, i: nat, marks: set<char>, width: nat)
    requires i <= |s| && Plain(marks) && Pieces(s[i..])
    ensures Pieces(SpaceAfterFrom(s, i, marks, width))
    decreases |s| - i
  {
    if i < |s| {
      PlaceholderChars();
      if s[i] in marks {
        var j := SpaceRunEnd(s, i + 1);
        PiecesTail(s, i);
        PiecesSkip(s, i + 1, j);
        SpaceAfterPieces(s, j, marks, width);
        PiecesPrefix([s[i]] + Repeat(' ', width), SpaceAfterFrom(s, j, marks, width));
      } else if s[i] != '_' {
        PiecesTail(s, i);
        SpaceAfterPieces(s, i + 1, marks, width);
        PiecesCons(s[i], SpaceAfterFrom(s, i + 1, marks, width));
      } else {
        var j := i + |Placeholder|;
        PiecesUnderscore(s, i);
        assert s[i..j] == Placeholder;
        SpaceAfterCopies(s, i, j, marks, width);
        SpaceAfterPieces(s, j, marks, width);
        PiecesPlaceholder(SpaceAfterFrom(s, j, marks, width));
      }
    }
  }

  /** `SqueezeFrom` copies a character that does not start a run of four spaces. */
  lemma SqueezeCopy(s: seq<char>, i: nat)
    requires i < |s| && (s[i] != ' ' || CharRunEnd(s, i, ' ') < i + 4)
    ensures SqueezeFrom(s, i) == [s[i]] + SqueezeFrom(s, i + 1)
  {
    assert s[i] != ' ' ==> CharRunEnd(s, i, ' ') == i;
  }

  /** Over characters that are not spaces, `SqueezeFrom` copies. */
  lemma {:induction false} SqueezeCopies(s: seq<char>, i: nat, k: nat)
    requires i <= k <= |s| && forall m | i <= m < k :: s[m] != ' '
    ensures SqueezeFrom(s, i) == s[i..k] + SqueezeFrom(s, k)
    decreases k - i
  {
    if i < k {
      var rest := SqueezeFrom(s, k);
      calc {
        SqueezeFrom(s, i);
        == { SqueezeCopy(s, i); }
        [s[i]] + SqueezeFrom(s, i + 1);
        == { SqueezeCopies(s, i + 1, k); }
        [s[i]] + (s[i + 1..k] + rest);
        == { assert s[i..k] == [s[i]] + s[i + 1..k]; }
        s[i..k] + rest;
      }
    } else {
      assert s[i..k] == [];
    }
  }

  /** `SqueezeFrom` keeps pieces. */
  lemma {:induction false} SqueezePieces(s: seq<char>, i: nat)
    requires i <= |s| && Pieces(s[i..])
    ensures Pieces(SqueezeFrom(s, i))
    decreases |s| - i
  {
    if i < |s| {
      PlaceholderChars();
      var j := CharRunEnd(s, i, ' ');
      if j >= i + 4 {
        PiecesSkip(s, i, j);
        SqueezePieces(s, j);
        PiecesPrefix(Repeat(' ', 3), SqueezeFrom(s, j));
      } else if s[i] != '_' {
        PiecesTail(s, i);
        SqueezePieces(s, i + 1);
        PiecesCons(s[i], SqueezeFrom(s, i + 1));
      } else {
        var k := i + |Placeholder|;
        PiecesUnderscore(s, i);
        assert s[i..k] == Placeholder;
        SqueezeCopies(s, i, k);
        SqueezePieces(s, k);
        PiecesPlaceholder(SqueezeFrom(s, k));
      }
    }
  }

  /** The spacing substitutions keep pieces. */
  lemma RespacedPieces(hidden: seq<char>)
    requires Pieces(hidden)
    ensures Pieces(Respaced(hidden))
  {
    MarksArePlain();
    var sentences := SpaceAfterFrom(hidden, 0, SentenceMarks, 3);
    var clauses := SpaceAfterFrom(sentences, 0, ClauseMarks, 2);
    assert hidden[0..] == hidden;
    SpaceAfterPieces(hidden, 0, SentenceMarks, 3);
    assert sentences[0..] == sentences;
    SpaceAfterPieces(sentences, 0, ClauseMarks, 2);
    assert clauses[0..] == clauses;
    SqueezePieces(clauses, 0);
  }

  /** The replacing case of `RestoreFiltered`. */
  lemma RestorePlaceholderStep(rest: seq<char>)
    ensures RestoreFrom(Placeholder + rest, 0) == "..." + RestoreFrom(rest, 0)
  {
    var t := Placeholder + rest;
    assert t[..|Placeholder|] == Placeholder && t[|Placeholder|..] == rest;
    RestoreSuffix(t, |Placeholder|, rest);
  }

  /** The copying case of `RestoreFiltered`. */
  lemma RestoreCharStep(c: char, rest: seq<char>)
    requires c != '_'
    ensures RestoreFrom([c] + rest, 0) == [c] + RestoreFrom(rest, 0)
  {
    var t := [c] + rest;
    assert t[0] != Placeholder[0] && t[1..] == rest;
    RestoreSuffix(t, 1, rest);
  }

  /** The placeholder case of `RestoreFiltered`, restoring first. */
  lemma RestoreThenFilterPlaceholder(rest: seq<char>)
    ensures Without(RestoreFrom(Placeholder + rest, 0), IsSpace) == "..." + Without(RestoreFrom(rest, 0), IsSpace)
  {
    RestorePlaceholderStep(rest);
    WithoutKept("...", RestoreFrom(rest, 0), IsSpace);
  }

  /** The placeholder case of `RestoreFiltered`, filtering first. */
  lemma FilterThenRestorePlaceholder(rest: seq<char>)
    ensures RestoreFrom(Without(Placeholder + rest, IsSpace), 0) == "..." + RestoreFrom(Without(rest, IsSpace), 0)
  {
    PlaceholderChars();
    WithoutKept(Placeholder, rest, IsSpace);
    RestorePlaceholderStep(Without(rest, IsSpace));
  }

  /** The copying case of `RestoreFiltered`, restoring first. */
  lemma RestoreThenFilterChar(c: char, rest: seq<char>)
    requires c != '_'
    ensures Without(RestoreFrom([c] + rest, 0), IsSpace) == (if IsSpace(c) then [] else [c]) + Without(RestoreFrom(rest, 0), IsSpace)
  {
    RestoreCharStep(c, rest);
    WithoutCons(c, RestoreFrom(rest, 0), IsSpace);
  }

  /** The copying case of `RestoreFiltered`, filtering first. */
  lemma FilterThenRestoreChar(c: char, rest: seq<char>)
    requires c != '_'
    ensures RestoreFrom(Without([c] + rest, IsSpace), 0) == (if IsSpace(c) then [] else [c]) + RestoreFrom(Without(rest, IsSpace), 0)
  {
    WithoutCons(c, rest, IsSpace);
    if IsSpace(c) {
      assert Without([c] + rest, IsSpace) == Without(rest, IsSpace);
    } else {
      RestoreCharStep(c, Without(rest, IsSpace));
    }
  }

  /**
   * On pieces, dropping whitespace and restoring the ellipsis commute: no
   * placeholder holds whitespace, and dropping whitespace joins no new one.
   */
  lemma {:induction false} RestoreFiltered(t: seq<char>)
    requires Pieces(t)
    ensures Without(RestoreFrom(t, 0), IsSpace) == RestoreFrom(Without(t, IsSpace), 0)
    decreases |t|
  {
    if |t| > 0 {
      if HasAt(t, 0, Placeholder) {
        var rest := t[|Placeholder|..];
        RestoreFiltered(rest);
        assert t == Placeholder + rest;
        RestoreThenFilterPlaceholder(rest);
        FilterThenRestorePlaceholder(rest);
      } else {
        var rest := t[1..];
        RestoreFiltered(rest);
        assert t == [t[0]] + rest;
        RestoreThenFilterChar(t[0], rest);
        FilterThenRestoreChar(t[0], rest);
      }
    }
  }

  /**
   * On a text without `_` (where the placeholder cannot be forged),
   * `enhance_punctuation_pauses` changes only whitespace.
   */
  lemma PausesOnlyRespace(s: seq<char>)
    requires forall k | 0 <= k < |s| :: s[k] != '_'
    ensures Without(EnhancePauses(s), IsSpace) == Without(s, IsSpace)
  {
    var hidden := HideFrom(s, 0);
    HidePieces(s, 0);
    RespacedPieces(hidden);
    RestoreFiltered(Respaced(hidden));
    RespacedOnlyWhitespace(hidden);
    RestoreFiltered(hidden);
    RestoreHidden(s, 0);
    assert s[0..] == s;
  }

  // ---------------------------------------------------------------------
  // An ellipsis comes out whole
  //
  // Each scan below is compared at index `i` of one text and `j` of another
  // whose outputs from there differ by a fixed `tail`; the `...Agree...`
  // lemmas take one step of both scans at once.

  /** The replacing step of `HideFrom`, taken in two texts at once. */
  lemma HideAgreeDots(s: seq<char>, i: nat, t: seq<char>, j: nat, tail: seq<char>)
    requires HasAt(s, i, "...") && HasAt(t, j, "...")
    requires HideFrom(s, i + 3) == HideFrom(t, j + 3) + tail
    ensures HideFrom(s, i) == HideFrom(t, j) + tail
  {
    assert HideFrom(s, i) == Placeholder + HideFrom(s, i + 3);
    assert HideFrom(t, j) == Placeholder + HideFrom(t, j + 3);
  }

  /** The copying step of `HideFrom`, taken in two texts at once. */
  lemma HideAgreeChar(s: seq<char>, i: nat, t: seq<char>, j: nat, tail: seq<char>)
    requires i < |s| && j < |t| && s[i] == t[j]
    requires !HasAt(s, i, "...") && !HasAt(t, j, "...")
    requires HideFrom(s, i + 1) == HideFrom(t, j + 1) + tail
    ensures HideFrom(s, i) == HideFrom(t, j) + tail
  {
    assert HideFrom(s, i) == [s[i]] + HideFrom(s, i + 1);
    assert HideFrom(t, j) == [t[j]] + HideFrom(t, j + 1);
  }

  /** Hiding depends only on the text from where it starts. */
  lemma {:induction false} HideSuffix(s: seq<char>, i: nat, t: seq<char>, j: nat)
    requires i <= |s| && j <= |t| && s[i..] == t[j..]
    ensures HideFrom(s, i) == HideFrom(t, j)
    decreases |s| - i
  {
    if i < |s| {
      SuffixHead(s, i, t, j);
      SuffixHasAt(s, i, t, j, "...");
      if HasAt(s, i, "...") {
        SuffixDrop(s, i, t, j, 3);
        HideSuffix(s, i + 3, t, j + 3);
        assert HideFrom(s, i) == Placeholder + HideFrom(s, i + 3);
        assert HideFrom(t, j) == Placeholder + HideFrom(t, j + 3);
      } else {
        SuffixDrop(s, i, t, j, 1);
        HideSuffix(s, i + 1, t, j + 1);
        assert HideFrom(s, i) == [s[i]] + HideFrom(s, i + 1);
        assert HideFrom(t, j) == [t[j]] + HideFrom(t, j + 1);
      }
    } else {
      assert |t| == j;
    }
  }

  /** Before the end of a text that does not end with a period, `...` is found in it alone. */
  lemma HideSplitHead(a: seq<char>, w: seq<char>, i: nat)
    requires i < |a| && a[|a| - 1] != '.'
    ensures HasAt(a + w, i, "...") == HasAt(a, i, "...")
    ensures (a + w)[i] == a[i]
  {
    if i + 3 <= |a| {
      assert (a + w)[i..i + 3] == a[i..i + 3];
    } else if i + 3 <= |a + w| {
      assert (a + w)[i..i + 3][|a| - 1 - i] == a[|a| - 1];
    }
  }

  /** Hiding in front of a text that does not end with a period stops at its end. */
  lemma {:induction false} HideSplit(a: seq<char>, w: seq<char>, i: nat)
    requires i <= |a| && (|a| == 0 || a[|a| - 1] != '.')
    ensures HideFrom(a + w, i) == HideFrom(a, i) + HideFrom(w, 0)
    decreases |a| - i
  {
    if i == |a| {
      assert (a + w)[|a|..] == w[0..];
      HideSuffix(a + w, |a|, w, 0);
    } else {
      HideSplitHead(a, w, i);
      if HasAt(a, i, "...") {
        HideSplit(a, w, i + 3);
        HideAgreeDots(a + w, i, a, i, HideFrom(w, 0));
      } else {
        HideSplit(a, w, i + 1);
        HideAgreeChar(a + w, i, a, i, HideFrom(w, 0));
      }
    }
  }

  /** An ellipsis at the head of a text is hidden whole. */
  lemma HideEllipsisHead(y: seq<char>)
    ensures HideFrom("..." + y, 0) == Placeholder + HideFrom(y, 0)
  {
    assert ("..." + y)[0..3] == "...";
    assert ("..." + y)[3..] == y[0..];
    HideSuffix("..." + y, 3, y, 0);
  }

  /** A whitespace run stops in front of a character that is not whitespace. */
  lemma {:induction false} SpaceRunSplit(a: seq<char>, w: seq<char>, q: nat)
    requires q <= |a| && (|w| == 0 || !IsSpace(w[0]))
    ensures SpaceRunEnd(a + w, q) == SpaceRunEnd(a, q)
    decreases |a| - q
  {
    if q < |a| && IsSpace(a[q]) {
      SpaceRunSplit(a, w, q + 1);
    }
  }

  /** The step of `SpaceAfterFrom` at a mark, taken in two texts at once. */
  lemma SpaceAfterAgreeMark(s: seq<char>, i: nat, t: seq<char>, j: nat, marks: set<char>, width: nat, tail: seq<char>)
    requires i < |s| && j < |t| && s[i] == t[j] && s[i] in marks
    requires SpaceAfterFrom(s, SpaceRunEnd(s, i + 1), marks, width) == SpaceAfterFrom(t, SpaceRunEnd(t, j + 1), marks, width) + tail
    ensures SpaceAfterFrom(s, i, marks, width) == SpaceAfterFrom(t, j, marks, width) + tail
  {
    assert SpaceAfterFrom(s, i, marks, width) == [s[i]] + Repeat(' ', width) + SpaceAfterFrom(s, SpaceRunEnd(s, i + 1), marks, width);
    assert SpaceAfterFrom(t, j, marks, width) == [t[j]] + Repeat(' ', width) + SpaceAfterFrom(t, SpaceRunEnd(t, j + 1), marks, width);
  }

  /** The copying step of `SpaceAfterFrom`, taken in two texts at once. */
  lemma SpaceAfterAgreeCopy(s: seq<char>, i: nat, t: seq<char>, j: nat, marks: set<char>, width: nat, tail: seq<char>)
    requires i < |s| && j < |t| && s[i] == t[j] && s[i] !in marks
    requires SpaceAfterFrom(s, i + 1, marks, width) == SpaceAfterFrom(t, j + 1, marks, width) + tail
    ensures SpaceAfterFrom(s, i, marks, width) == SpaceAfterFrom(t, j, marks, width) + tail
  {
    assert SpaceAfterFrom(s, i, marks, width) == [s[i]] + SpaceAfterFrom(s, i + 1, marks, width);
    assert SpaceAfterFrom(t, j, marks, width) == [t[j]] + SpaceAfterFrom(t, j + 1, marks, width);
  }

  /** `SpaceAfterFrom` depends only on the text from where it starts. */
  lemma {:induction false} SpaceAfterSuffix(s: seq<char>, i: nat, t: seq<char>, j: nat, marks: set<char>, width: nat)
    requires i <= |s| && j <= |t| && s[i..] == t[j..]
    ensures SpaceAfterFrom(s, i, marks, width) == SpaceAfterFrom(t, j, marks, width)
    decreases |s| - i
  {
    if i < |s| {
      SuffixHead(s, i, t, j);
      SuffixDrop(s, i, t, j, 1);
      if s[i] in marks {
        var e := SpaceRunEnd(s, i + 1);
        SpaceRunSuffix(s, i + 1, t, j + 1);
        var f := SpaceRunEnd(t, j + 1);
        SuffixDrop(s, i + 1, t, j + 1, e - (i + 1));
        assert f == j + 1 + (e - (i + 1));
        SpaceAfterSuffix(s, e, t, f, marks, width);
        AppendNothing(SpaceAfterFrom(t, f, marks, width));
        SpaceAfterAgreeMark(s, i, t, j, marks, width, []);
      } else {
        SpaceAfterSuffix(s, i + 1, t, j + 1, marks, width);
        AppendNothing(SpaceAfterFrom(t, j + 1, marks, width));
        SpaceAfterAgreeCopy(s, i, t, j, marks, width, []);
      }
      AppendNothing(SpaceAfterFrom(t, j, marks, width));
    } else {
      assert |t| == j;
    }
  }

  /** `SpaceAfterFrom` treats a text in front of a non-whitespace character on its own. */
  lemma {:induction false} SpaceAfterSplit(a: seq<char>, w: seq<char>, i: nat, marks: set<char>, width: nat)
    requires i <= |a| && (|w| == 0 || !IsSpace(w[0]))
    ensures SpaceAfterFrom(a + w, i, marks, width) == SpaceAfterFrom(a, i, marks, width) + SpaceAfterFrom(w, 0, marks, width)
    decreases |a| - i
  {
    if i == |a| {
      assert (a + w)[|a|..] == w[0..];
      SpaceAfterSuffix(a + w, |a|, w, 0, marks, width);
    } else {
      assert (a + w)[i] == a[i];
      if a[i] in marks {
        SpaceRunSplit(a, w, i + 1);
        SpaceAfterSplit(a, w, SpaceRunEnd(a, i + 1), marks, width);
        SpaceAfterAgreeMark(a + w, i, a, i, marks, width, SpaceAfterFrom(w, 0, marks, width));
      } else {
        SpaceAfterSplit(a, w, i + 1, marks, width);
        SpaceAfterAgreeCopy(a + w, i, a, i, marks, width, SpaceAfterFrom(w, 0, marks, width));
      }
    }
  }

  /** `SpaceAfterFrom` copies a placeholder. */
  lemma SpaceAfterPlaceholder(y: seq<char>, marks: set<char>, width: nat)
    requires Plain(marks)
    ensures SpaceAfterFrom(Placeholder + y, 0, marks, width) == Placeholder + SpaceAfterFrom(y, 0, marks, width)
  {
    var t := Placeholder + y;
    assert t[0..|Placeholder|] == Placeholder;
    SpaceAfterCopies(t, 0, |Placeholder|, marks, width);
    assert t[|Placeholder|..] == y[0..];
    SpaceAfterSuffix(t, |Placeholder|, y, 0, marks, width);
  }

  /** A run of spaces stops in front of a character that is not a space. */
  lemma {:induction false} BlankRunSplit(a: seq<char>, w: seq<char>, q: nat)
    requires q <= |a| && (|w| == 0 || w[0] != ' ')
    ensures CharRunEnd(a + w, q, ' ') == CharRunEnd(a, q, ' ')
    decreases |a| - q
  {
    if q < |a| && a[q] == ' ' {
      BlankRunSplit(a, w, q + 1);
    }
  }

  /** The squeezing step of `SqueezeFrom`, taken in two texts at once. */
  lemma SqueezeAgreeRun(s: seq<char>, i: nat, t: seq<char>, j: nat, tail: seq<char>)
    requires i <= |s| && j <= |t| && CharRunEnd(s, i, ' ') >= i + 4 && CharRunEnd(t, j, ' ') >= j + 4
    requires SqueezeFrom(s, CharRunEnd(s, i, ' ')) == SqueezeFrom(t, CharRunEnd(t, j, ' ')) + tail
    ensures SqueezeFrom(s, i) == SqueezeFrom(t, j) + tail
  {
    assert SqueezeFrom(s, i) == Repeat(' ', 3) + SqueezeFrom(s, CharRunEnd(s, i, ' '));
    assert SqueezeFrom(t, j) == Repeat(' ', 3) + SqueezeFrom(t, CharRunEnd(t, j, ' '));
  }

  /** The copying step of `SqueezeFrom`, taken in two texts at once. */
  lemma SqueezeAgreeCopy(s: seq<char>, i: nat, t: seq<char>, j: nat, tail: seq<char>)
    requires i < |s| && j < |t| && s[i] == t[j] && CharRunEnd(s, i, ' ') < i + 4 && CharRunEnd(t, j, ' ') < j + 4
    requires SqueezeFrom(s, i + 1) == SqueezeFrom(t, j + 1) + tail
    ensures SqueezeFrom(s, i) == SqueezeFrom(t, j) + tail
  {
    SqueezeCopy(s, i);
    SqueezeCopy(t, j);
  }

  /** `SqueezeFrom` depends only on the text from where it starts. */
  lemma {:induction false} SqueezeSuffix(s: seq<char>, i: nat, t: seq<char>, j: nat)
    requires i <= |s| && j <= |t| && s[i..] == t[j..]
    ensures SqueezeFrom(s, i) == SqueezeFrom(t, j)
    decreases |s| - i
  {
    if i < |s| {
      SuffixHead(s, i, t, j);
      CharRunSuffix(s, i, t, j, ' ');
      var e := CharRunEnd(s, i, ' ');
      if e >= i + 4 {
        var f := CharRunEnd(t, j, ' ');
        SuffixDrop(s, i, t, j, e - i);
        assert f == j + (e - i);
        SqueezeSuffix(s, e, t, f);
        AppendNothing(SqueezeFrom(t, f));
        SqueezeAgreeRun(s, i, t, j, []);
      } else {
        SuffixDrop(s, i, t, j, 1);
        SqueezeSuffix(s, i + 1, t, j + 1);
        AppendNothing(SqueezeFrom(t, j + 1));
        SqueezeAgreeCopy(s, i, t, j, []);
      }
      AppendNothing(SqueezeFrom(t, j));
    } else {
      assert |t| == j;
    }
  }

  /** `SqueezeFrom` treats a text in front of a character that is not a space on its own. */
  lemma {:induction false} SqueezeSplit(a: seq<char>, w: seq<char>, i: nat)
    requires i <= |a| && (|w| == 0 || w[0] != ' ')
    ensures SqueezeFrom(a + w, i) == SqueezeFrom(a, i) + SqueezeFrom(w, 0)
    decreases |a| - i
  {
    if i == |a| {
      assert (a + w)[|a|..] == w[0..];
      SqueezeSuffix(a + w, |a|, w, 0);
    } else {
      BlankRunSplit(a, w, i);
      assert (a + w)[i] == a[i];
      if CharRunEnd(a, i, ' ') >= i + 4 {
        SqueezeSplit(a, w, CharRunEnd(a, i, ' '));
        SqueezeAgreeRun(a + w, i, a, i, SqueezeFrom(w, 0));
      } else {
        SqueezeSplit(a, w, i + 1);
        SqueezeAgreeCopy(a + w, i, a, i, SqueezeFrom(w, 0));
      }
    }
  }

  /** `SqueezeFrom` copies a placeholder. */
  lemma SqueezePlaceholder(y: seq<char>)
    ensures SqueezeFrom(Placeholder + y, 0) == Placeholder + SqueezeFrom(y, 0)
  {
    var t := Placeholder + y;
    assert t[0..|Placeholder|] == Placeholder;
    SqueezeCopies(t, 0, |Placeholder|);
    assert t[|Placeholder|..] == y[0..];
    SqueezeSuffix(t, |Placeholder|, y, 0);
  }

  /** The spacing substitutions treat the two sides of a placeholder on their own. */
  lemma RespacedSplit(a: seq<char>, y: seq<char>)
    ensures Respaced(a + (Placeholder + y)) == Respaced(a) + (Placeholder + Respaced(y))
  {
    MarksArePlain();
    var a1 := SpaceAfterFrom(a, 0, SentenceMarks, 3);
    var y1 := SpaceAfterFrom(y, 0, SentenceMarks, 3);
    SpaceAfterSplit(a, Placeholder + y, 0, SentenceMarks, 3);
    SpaceAfterPlaceholder(y, SentenceMarks, 3);
    var a2 := SpaceAfterFrom(a1, 0, ClauseMarks, 2);
    var y2 := SpaceAfterFrom(y1, 0, ClauseMarks, 2);
    SpaceAfterSplit(a1, Placeholder + y1, 0, ClauseMarks, 2);
    SpaceAfterPlaceholder(y1, ClauseMarks, 2);
    SqueezeSplit(a2, Placeholder + y2, 0);
    SqueezePlaceholder(y2);
  }

  /** Restoring pieces in front of any text treats the pieces on their own. */
  lemma {:induction false} RestoreSplit(a: seq<char>, w: seq<char>)
    requires Pieces(a)
    ensures RestoreFrom(a + w, 0) == RestoreFrom(a, 0) + RestoreFrom(w, 0)
    decreases |a|
  {
    if |a| == 0 {
      assert a + w == w;
    } else if HasAt(a, 0, Placeholder) {
      var rest := a[|Placeholder|..];
      assert a == Placeholder + rest;
      assert a + w == Placeholder + (rest + w);
      RestoreSplit(rest, w);
      RestorePlaceholderStep(rest + w);
      RestorePlaceholderStep(rest);
    } else {
      var rest := a[1..];
      assert a == [a[0]] + rest;
      assert a + w == [a[0]] + (rest + w);
      RestoreSplit(rest, w);
      RestoreCharStep(a[0], rest + w);
      RestoreCharStep(a[0], rest);
    }
  }

  /**
   * An ellipsis comes out of `enhance_punctuation_pauses` verbatim: when the
   * text before it holds no `_` and does not end with a period (which would
   * make the first three periods the ellipsis), the output is the output for
   * the text before it, then `...`, then the output for the text after it.
   */
  lemma EllipsisWhole(x: seq<char>, y: seq<char>)
    requires forall k | 0 <= k < |x| :: x[k] != '_'
    requires |x| == 0 || x[|x| - 1] != '.'
    ensures EnhancePauses(x + "..." + y) == EnhancePauses(x) + "..." + EnhancePauses(y)
  {
    var hx := HideFrom(x, 0);
    var hy := HideFrom(y, 0);
    assert x + "..." + y == x + ("..." + y);
    HideSplit(x, "..." + y, 0);
    HideEllipsisHead(y);
    RespacedSplit(hx, hy);
    HidePieces(x, 0);
    RespacedPieces(hx);
    var rx := Respaced(hx);
    var ry := Respaced(hy);
    RestoreSplit(rx, Placeholder + ry);
    RestorePlaceholderStep(ry);
  }
}
