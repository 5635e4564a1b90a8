/**
 * `process_emojis` of server.py: every run of pictographic code points becomes
 * a sentence break ". ", then runs of periods and long runs of whitespace are
 * collapsed. Each `re.sub` is its own function `...From(s, i)`, which rewrites
 * the suffix of `s` that starts at `i`, scanning left to right and replacing
 * non-overlapping, greedy matches.
 */
module Emojis {
  import opened Chars

  /** The character class of `emoji_pattern`, range by range. */
  predicate IsEmoji(c: char) {
    || ('\U{1F600}' <= c <= '\U{1F64F}')  // emoticons
    || ('\U{1F300}' <= c <= '\U{1F5FF}')  // symbols and pictographs
    || ('\U{1F680}' <= c <= '\U{1F6FF}')  // transport and map symbols
    || ('\U{1F700}' <= c <= '\U{1F77F}')  // alchemical symbols
    || ('\U{1F780}' <= c <= '\U{1F7FF}')  // geometric shapes extended
    || ('\U{1F800}' <= c <= '\U{1F8FF}')  // supplemental arrows-C
    || ('\U{1F900}' <= c <= '\U{1F9FF}')  // supplemental symbols and pictographs
    || ('\U{1FA00}' <= c <= '\U{1FA6F}')  // chess symbols
    || ('\U{1FA70}' <= c <= '\U{1FAFF}')  // symbols and pictographs extended-A
    || ('\U{2702}' <= c <= '\U{27B0}')
    || ('\U{24C2}' <= c <= '\U{1F251}')
  }

  /**
   * The eleven ranges amount to three intervals, because U+2702 to U+27B0
   * and most of the pictographic blocks lie inside U+24C2 to U+1F251. Nothing
   * below U+24C2 (ASCII, the Latin-1 letters, `¿`) is an emoji; every CJK
   * unified ideograph is one.
   */
  lemma EmojiIntervals(c: char)
    ensures IsEmoji(c) <==>
      || ('\U{24C2}' <= c <= '\U{1F251}')
      || ('\U{1F300}' <= c <= '\U{1F64F}')
      || ('\U{1F680}' <= c <= '\U{1FAFF}')
    ensures c < '\U{24C2}' ==> !IsEmoji(c)
    ensures '\U{4E00}' <= c <= '\U{9FFF}' ==> IsEmoji(c)
  {
  }

  /** What the engine is asked to pronounce: everything but whitespace, periods and emoji. */
  predicate Silent(c: char) {
    IsEmoji(c) || c == '.' || IsSpace(c)
  }

  ghost predicate NoEmoji(s: seq<char>) {
    forall k | 0 <= k < |s| :: !IsEmoji(s[k])
  }

  ghost predicate NoDoubleDot(s: seq<char>) {
    forall k | 0 <= k < |s| - 1 :: !(s[k] == '.' && s[k + 1] == '.')
  }

  ghost predicate NoSpaceRun3(s: seq<char>) {
    forall k | 0 <= k < |s| - 2 :: !(IsSpace(s[k]) && IsSpace(s[k + 1]) && IsSpace(s[k + 2]))
  }

  /** End of the maximal run of emoji code points that starts at `i`. */
  function EmojiRunEnd(s: seq<char>, i: nat): (j: nat)
    requires i <= |s|
    ensures i <= j <= |s|
    ensures forall k | i <= k < j :: IsEmoji(s[k])
    ensures j == |s| || !IsEmoji(s[j])
    decreases |s| - i
  {
    if i < |s| && IsEmoji(s[i]) then EmojiRunEnd(s, i + 1) else i
  }

  /**
   * `emoji_pattern.sub('. ', text)`: each maximal run of emoji becomes ". ",
   * every other character is copied, and a text without emoji is left as it is.
   */
  function EmojisToStopsFrom(s: seq<char>, i: nat): (r: seq<char>)
    requires i <= |s|
    ensures NoEmoji(r)
    ensures Without(r, Silent) == Without(s[i..], Silent)
    ensures (forall k | i <= k < |s| :: !IsEmoji(s[k])) ==> r == s[i..]
    ensures i < |s| && !IsEmoji(s[i]) ==> |r| > 0 && r[0] == s[i]
    ensures i < |s| && IsEmoji(s[i]) ==>
      ". " <= r && Without(r[2..], Silent) == Without(s[EmojiRunEnd(s, i)..], Silent)
    decreases |s| - i
  {
    if i == |s| then []
    else if IsEmoji(s[i]) then
      var j := EmojiRunEnd(s, i);
      var rest := EmojisToStopsFrom(s, j);
      StopForRun(s, i, j, rest);
      ". " + rest
    else
      var rest := EmojisToStopsFrom(s, i + 1);
      CopyFiltered(s, i, rest, Silent);
      [s[i]] + rest
  }

  /** Replacing the emoji run `s[i..j]` by ". " changes nothing that is pronounced. */
  lemma StopForRun(s: seq<char>, i: nat, j: nat, rest: seq<char>)
    requires i < j <= |s| && forall k | i <= k < j :: IsEmoji(s[k])
    requires Without(rest, Silent) == Without(s[j..], Silent)
    ensures Without(". " + rest, Silent) == Without(s[i..], Silent)
    ensures (". " + rest)[2..] == rest
  {
    WithoutConcat(". ", rest, Silent);
    WithoutSkip(s, i, j, Silent);
  }

  /** `EmojiRunEnd` is the general run end for the emoji class. */
  lemma {:induction false} EmojiRunIsRun(s: seq<char>, i: nat)
    requires i <= |s|
    ensures EmojiRunEnd(s, i) == RunEnd(s, i, IsEmoji)
    decreases |s| - i
  {
    if i < |s| && IsEmoji(s[i]) {
      EmojiRunIsRun(s, i + 1);
    }
  }

  /**
   * `EmojisToStopsFrom` agrees with the run-by-run reference: every maximal
   * run of emoji, however short, becomes ". ", and every other character is
   * kept.
   */
  lemma {:induction false} EmojisToStopsRuns(s: seq<char>, i: nat)
    requires i <= |s|
    ensures EmojisToStopsFrom(s, i) == CollapseRuns(s, i, IsEmoji, 1, ". ")
    decreases |s| - i
  {
    if i < |s| {
      EmojiRunIsRun(s, i);
      if IsEmoji(s[i]) {
        EmojisToStopsRuns(s, EmojiRunEnd(s, i));
      } else {
        EmojisToStopsRuns(s, i + 1);
      }
    }
  }

  /** `EmojisToStopsFrom` copies a character that is not an emoji. */
  lemma EmojisToStopsCopy(s: seq<char>, i: nat)
    requires i < |s| && !IsEmoji(s[i])
    ensures EmojisToStopsFrom(s, i) == [s[i]] + EmojisToStopsFrom(s, i + 1)
  {
  }

  /** `EmojisToStopsFrom` copies every character up to the next emoji. */
  lemma {:induction false} EmojisToStopsCopies(s: seq<char>, i: nat, k: nat)
    requires i <= k <= |s|
    requires forall q | i <= q < k :: !IsEmoji(s[q])
    ensures EmojisToStopsFrom(s, i) == s[i..k] + EmojisToStopsFrom(s, k)
    decreases k - i
  {
    if i < k {
      EmojisToStopsCopy(s, i);
      EmojisToStopsCopies(s, i + 1, k);
      SliceCons(s, i, k, EmojisToStopsFrom(s, k));
    } else {
      SliceEmpty(s, i, EmojisToStopsFrom(s, k));
    }
  }

  /** A lone emoji becomes ". " on its own. */
  lemma EmojiStop(s: seq<char>, m: nat)
    requires m < |s| && IsEmoji(s[m]) && (m + 1 == |s| || !IsEmoji(s[m + 1]))
    ensures EmojisToStopsFrom(s, m) == ". " + EmojisToStopsFrom(s, m + 1)
  {
    assert EmojiRunEnd(s, m + 1) == m + 1;
  }

  /** Where the parts of `x + [e] + y` lie. */
  lemma EmojiBetweenText(x: seq<char>, e: char, y: seq<char>, s: seq<char>)
    requires NoEmoji(x) && IsEmoji(e) && NoEmoji(y) && s == x + [e] + y
    ensures |x| < |s| && IsEmoji(s[|x|])
    ensures forall q | 0 <= q < |x| :: !IsEmoji(s[q])
    ensures forall q | |x| + 1 <= q < |s| :: !IsEmoji(s[q])
    ensures s[0..|x|] + (". " + (s[|x| + 1..|s|] + [])) == x + ". " + y
  {
    assert s[0..|x|] == x && s[|x| + 1..|s|] == y;
    assert forall q | 0 <= q < |x| :: s[q] == x[q];
    assert forall q | |x| + 1 <= q < |s| :: s[q] == y[q - |x| - 1];
  }

  /**
   * A single emoji between two texts without emoji becomes a sentence break
   * and both texts are kept: "Hi " + an emoji + " there" becomes "Hi .  there".
   */
  lemma EmojiBetweenWords(x: seq<char>, e: char, y: seq<char>)
    requires NoEmoji(x) && IsEmoji(e) && NoEmoji(y)
    ensures EmojisToStopsFrom(x + [e] + y, 0) == x + ". " + y
  {
    var s := x + [e] + y;
    var m := |x|;
    EmojiBetweenText(x, e, y, s);
    calc {
      EmojisToStopsFrom(s, 0);
      == { EmojisToStopsCopies(s, 0, m); }
      s[0..m] + EmojisToStopsFrom(s, m);
      == { EmojiStop(s, m); }
      s[0..m] + (". " + EmojisToStopsFrom(s, m + 1));
      == { EmojisToStopsCopies(s, m + 1, |s|); }
      s[0..m] + (". " + (s[m + 1..|s|] + EmojisToStopsFrom(s, |s|)));
      == { assert EmojisToStopsFrom(s, |s|) == []; }
      s[0..m] + (". " + (s[m + 1..|s|] + []));
      ==
      x + ". " + y;
    }
  }

  /** `re.sub(r'\.{2,}', '.', text)`: each run of two or more periods becomes one. */
  function CollapseDotsFrom(s: seq<char>, i: nat): (r: seq<char>)
    requires i <= |s|
    ensures |r| > 0 <==> i < |s|
    ensures i < |s| ==> r[0] == s[i]
    ensures NoDoubleDot(r)
    ensures NoEmoji(s[i..]) ==> NoEmoji(r)
    ensures Without(r, Is('.')) == Without(s[i..], Is('.'))
    decreases |s| - i
  {
    if i == |s| then []
    else if CharRunEnd(s, i, '.') >= i + 2 then
      var j := CharRunEnd(s, i, '.');
      var rest := CollapseDotsFrom(s, j);
      WithoutConcat(".", rest, Is('.'));
      WithoutSkip(s, i, j, Is('.'));
      DotCons('.', rest, s[j..]);
      "." + rest
    else
      var rest := CollapseDotsFrom(s, i + 1);
      WithoutConcat([s[i]], rest, Is('.'));
      WithoutStep(s, i, Is('.'));
      DotCons(s[i], rest, s[i + 1..]);
      [s[i]] + rest
  }

  /** `CollapseDotsFrom` copies a character that does not start a run of two or more periods. */
  lemma CollapseDotsCopy(s: seq<char>, i: nat)
    requires i < |s| && CharRunEnd(s, i, '.') < i + 2
    ensures CollapseDotsFrom(s, i) == [s[i]] + CollapseDotsFrom(s, i + 1)
  {
  }

  /**
   * `CollapseDotsFrom` agrees with the run-by-run reference: every maximal
   * run of two or more periods becomes one period, and every other character
   * is kept.
   */
  lemma {:induction false} CollapseDotsRuns(s: seq<char>, i: nat)
    requires i <= |s|
    ensures CollapseDotsFrom(s, i) == CollapseRuns(s, i, Is('.'), 2, ".")
    decreases |s| - i
  {
    if i < |s| {
      CharRunIsRun(s, i, '.');
      var j := RunEnd(s, i, Is('.'));
      if s[i] == '.' {
        CollapseDotsRuns(s, j);
        if j < i + 2 {
          CollapseDotsCopy(s, i);
          assert s[i..j] == [s[i]];
        }
      } else {
        CollapseDotsRuns(s, i + 1);
      }
    }
  }

  /**
   * Putting `c` in front of the collapsed rest `rest` of `t` keeps periods
   * apart, unless both `c` and the head of `t` are periods, and adds no emoji
   * unless `c` is one.
   */
  lemma DotCons(c: char, rest: seq<char>, t: seq<char>)
    requires NoDoubleDot(rest)
    requires |rest| > 0 <==> |t| > 0
    requires |t| > 0 ==> rest[0] == t[0]
    requires c == '.' && |t| > 0 ==> t[0] != '.'
    ensures NoDoubleDot([c] + rest)
    ensures !IsEmoji(c) && NoEmoji(rest) ==> NoEmoji([c] + rest)
  {
    var r := [c] + rest;
    assert forall k | 1 <= k < |r| :: r[k] == rest[k - 1];
  }

  /** `re.sub(r'\s{3,}', ' ', text)`: each run of three or more whitespace characters becomes one space. */
  function CollapseSpacesFrom(s: seq<char>, i: nat): (r: seq<char>)
    requires i <= |s|
    ensures |r| > 0 ==> i < |s| && (r[0] == s[i] || (r[0] == ' ' && IsSpace(s[i])))
    ensures |r| > 1 && IsSpace(r[0]) && IsSpace(r[1]) ==> SpacesAt(s, i, 2)
    ensures NoSpaceRun3(r)
    decreases |s| - i
  {
    if i == |s| then []
    else if SpaceRunEnd(s, i) >= i + 3 then " " + CollapseSpacesFrom(s, SpaceRunEnd(s, i))
    else [s[i]] + CollapseSpacesFrom(s, i + 1)
  }

  /** `CollapseSpacesFrom` copies a character that does not start a run of three or more whitespace characters. */
  lemma CollapseSpacesCopy(s: seq<char>, i: nat)
    requires i < |s| && SpaceRunEnd(s, i) < i + 3
    ensures CollapseSpacesFrom(s, i) == [s[i]] + CollapseSpacesFrom(s, i + 1)
  {
  }

  /** Through a whitespace run too short to match, `CollapseSpacesFrom` copies it. */
  lemma {:induction false} CollapseSpacesShortRun(s: seq<char>, i: nat)
    requires i <= |s| && SpaceRunEnd(s, i) < i + 3
    ensures CollapseSpacesFrom(s, i) == s[i..SpaceRunEnd(s, i)] + CollapseSpacesFrom(s, SpaceRunEnd(s, i))
    decreases SpaceRunEnd(s, i) - i
  {
    var j := SpaceRunEnd(s, i);
    if i < j {
      assert SpaceRunEnd(s, i + 1) == j;
      CollapseSpacesCopy(s, i);
      CollapseSpacesShortRun(s, i + 1);
      SliceCons(s, i, j, CollapseSpacesFrom(s, j));
    } else {
      SliceEmpty(s, i, CollapseSpacesFrom(s, j));
    }
  }

  /**
   * `CollapseSpacesFrom` agrees with the run-by-run reference: every maximal
   * run of three or more whitespace characters becomes one space, and every
   * other character, shorter runs included, is kept.
   */
  lemma {:induction false} CollapseSpacesRuns(s: seq<char>, i: nat)
    requires i <= |s|
    ensures CollapseSpacesFrom(s, i) == CollapseRuns(s, i, IsSpace, 3, " ")
    decreases |s| - i
  {
    if i < |s| {
      SpaceRunIsRun(s, i);
      var j := RunEnd(s, i, IsSpace);
      if IsSpace(s[i]) {
        CollapseSpacesRuns(s, j);
        if j < i + 3 {
          CollapseSpacesShortRun(s, i);
        }
      } else {
        CollapseSpacesRuns(s, i + 1);
      }
    }
  }

  /** Collapsing whitespace adds no emoji. */
  lemma {:induction false} CollapseSpacesNoEmoji(s: seq<char>, i: nat)
    requires i <= |s|
    requires forall k | i <= k < |s| :: !IsEmoji(s[k])
    ensures NoEmoji(CollapseSpacesFrom(s, i))
    decreases |s| - i
  {
    if i < |s| {
      if SpaceRunEnd(s, i) >= i + 3 {
        CollapseSpacesNoEmoji(s, SpaceRunEnd(s, i));
      } else {
        CollapseSpacesNoEmoji(s, i + 1);
      }
    }
  }

  /** Collapsing whitespace never puts two periods side by side. */
  lemma {:induction false} CollapseSpacesNoDoubleDot(s: seq<char>, i: nat)
    requires i <= |s|
    requires forall k | i <= k < |s| - 1 :: !(s[k] == '.' && s[k + 1] == '.')
    ensures NoDoubleDot(CollapseSpacesFrom(s, i))
    decreases |s| - i
  {
    if i < |s| {
      if SpaceRunEnd(s, i) >= i + 3 {
        CollapseSpacesNoDoubleDot(s, SpaceRunEnd(s, i));
      } else {
        CollapseSpacesNoDoubleDot(s, i + 1);
        var rest := CollapseSpacesFrom(s, i + 1);
        assert s[i] == '.' && |rest| > 0 ==> rest[0] != '.';
      }
    }
  }

  /** Collapsing whitespace removes nothing but whitespace. */
  lemma {:induction false} CollapseSpacesSpoken(s: seq<char>, i: nat)
    requires i <= |s|
    ensures Without(CollapseSpacesFrom(s, i), IsSpace) == Without(s[i..], IsSpace)
    decreases |s| - i
  {
    if i < |s| {
      if SpaceRunEnd(s, i) >= i + 3 {
        var j := SpaceRunEnd(s, i);
        CollapseSpacesSpoken(s, j);
        WithoutConcat(" ", CollapseSpacesFrom(s, j), IsSpace);
        WithoutSkip(s, i, j, IsSpace);
      } else {
        CollapseSpacesSpoken(s, i + 1);
        WithoutConcat([s[i]], CollapseSpacesFrom(s, i + 1), IsSpace);
        WithoutStep(s, i, IsSpace);
      }
    }
  }

  /**
   * `process_emojis`: no emoji is left, no period follows another, no three
   * whitespace characters are adjacent, and what is pronounced is unchanged.
   */
  function ProcessEmojis(s: seq<char>): (r: seq<char>)
    ensures NoEmoji(r)
    ensures NoDoubleDot(r)
    ensures NoSpaceRun3(r)
    ensures Without(r, Silent) == Without(s, Silent)
  {
    assert s[0..] == s;
    var a := EmojisToStopsFrom(s, 0);
    assert a[0..] == a;
    var b := CollapseDotsFrom(a, 0);
    assert b[0..] == b;
    CollapseSpacesNoEmoji(b, 0);
    CollapseSpacesNoDoubleDot(b, 0);
    CollapseSpacesSpoken(b, 0);
    var c := CollapseSpacesFrom(b, 0);
    WithoutWiden(b, a, Is('.'), Silent);
    WithoutWiden(c, b, IsSpace, Silent);
    c
  }

  /** Stripping whitespace brings no emoji back. */
  lemma StripNoEmoji(s: seq<char>)
    requires NoEmoji(s)
    ensures NoEmoji(Strip(s))
  {
    var r := Strip(s);
    assert forall k | 0 <= k < |r| :: r[k] == s[SpaceRunEnd(s, 0) + k];
  }

  /** Replacing emoji by ". " never creates or removes a question mark. */
  lemma QuestionMarksSurvive(s: seq<char>, c: char)
    requires !Silent(c)
    ensures c in ProcessEmojis(s) <==> c in s
  {
    WithoutMembers(ProcessEmojis(s), Silent, c);
    WithoutMembers(s, Silent, c);
  }
}
