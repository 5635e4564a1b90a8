/**
 * `clean_markdown` of server.py: ten `re.sub` calls followed by `strip()`.
 * Each substitution is its own function `...From(s, i)`, which rewrites the
 * suffix of the ORIGINAL text `s` starting at `i` the way Python's `re.sub`
 * does: scan left to right, try the pattern at each position, and after a
 * match resume right behind it. Keeping the whole text at hand lets `^`
 * under `re.MULTILINE` look at the character before `i`.
 */
module Markdown {
  import opened Chars

  /** `.` without `re.DOTALL`: any character but a line feed. */
  predicate NotNewline(c: char) { c != '\n' }

  /** `[\s\S]`: any character at all. */
  predicate AnyChar(c: char) { true }

  /**
   * The lazy part `X*?close` of a pattern, tried from `from`: the first index
   * `j` at which `close` occurs such that every character in between satisfies
   * `inner`, or None when a character outside `inner` (or the end) comes first.
   */
  function FindClose(s: seq<char>, from: nat, close: seq<char>, inner: char -> bool): (r: Option<nat>)
    requires from <= |s| && |close| > 0
    ensures r.Some? ==> from <= r.value && HasAt(s, r.value, close)
    ensures r.Some? ==> forall k | from <= k < r.value :: inner(s[k])
    ensures r.Some? ==> forall k | from <= k < r.value :: !HasAt(s, k, close)
    ensures r.None? ==> forall j | from <= j && HasAt(s, j, close) :: exists k | from <= k < j :: !inner(s[k])
    decreases |s| - from
  {
    if HasAt(s, from, close) then Some(from)
    else if from < |s| && inner(s[from]) then FindClose(s, from + 1, close, inner)
    else None
  }

  /** `FindClose` finds the first `close` that only `inner` characters precede. */
  lemma {:induction false} FindCloseFirst(s: seq<char>, from: nat, j: nat, close: seq<char>, inner: char -> bool)
    requires from <= j <= |s| && |close| > 0 && HasAt(s, j, close)
    requires forall k | from <= k < j :: inner(s[k]) && !HasAt(s, k, close)
    ensures FindClose(s, from, close, inner) == Some(j)
    decreases j - from
  {
    if from < j {
      FindCloseFirst(s, from + 1, j, close, inner);
    }
  }

  /** `^` under `re.MULTILINE`: the start of the text or just after a line feed. */
  predicate AtLineStart(s: seq<char>, i: nat)
    requires i <= |s|
  {
    i == 0 || s[i - 1] == '\n'
  }

  /**
   * A marked span `open X*? open` starting at `i`, with `open` = `n` copies of
   * `marker` and X given by `inner`: the index of its closing marker.
   */
  function SpanAt(s: seq<char>, i: nat, marker: char, n: nat, inner: char -> bool): (r: Option<nat>)
    requires i <= |s| && n > 0
    ensures r.Some? ==> i + n <= r.value && r.value + n <= |s|
    ensures r.Some? ==> s[i..i + n] == Repeat(marker, n) && s[r.value..r.value + n] == Repeat(marker, n)
    ensures r.Some? ==> forall k | i + n <= k < r.value :: inner(s[k]) && !HasAt(s, k, Repeat(marker, n))
    ensures r.None? ==>
      || !HasAt(s, i, Repeat(marker, n))
      || forall j | i + n <= j && HasAt(s, j, Repeat(marker, n)) :: exists k | i + n <= k < j :: !inner(s[k])
  {
    if HasAt(s, i, Repeat(marker, n)) then FindClose(s, i + n, Repeat(marker, n), inner)
    else None
  }

  /** A subsequence of `s[k..]` is a subsequence of `s[j..]` for any earlier `j`. */
  lemma SubseqLater(s: seq<char>, j: nat, k: nat, rest: seq<char>)
    requires j <= k <= |s| && Subseq(rest, s[k..])
    ensures Subseq(rest, s[j..])
  {
    SubseqDrop(rest, s[j..k], s[k..]);
    assert s[j..] == s[j..k] + s[k..];
  }

  /** Keeping `s[b..c]` and a subsequence of `s[d..]` keeps a subsequence of `s[a..]`. */
  lemma SubseqSpan(s: seq<char>, a: nat, b: nat, c: nat, d: nat, rest: seq<char>)
    requires a <= b <= c <= d <= |s| && Subseq(rest, s[d..])
    ensures Subseq(s[b..c] + rest, s[a..])
    ensures Subseq(s[b..c] + rest, s[b..c] + s[d..])
  {
    SubseqLater(s, c, d, rest);
    SubseqKeep(s[b..c], rest, s[c..]);
    SubseqKeep(s[b..c], rest, s[d..]);
    assert s[b..] == s[b..c] + s[c..];
    SubseqLater(s, a, b, s[b..c] + rest);
  }

  /**
   * `re.sub(open (X*?) open, r'\1', text)` for the emphasis markers: every
   * marked span found left to right is replaced by its contents, and a text
   * without the marker is left as it is.
   */
  function UnwrapFrom(s: seq<char>, i: nat, marker: char, n: nat, inner: char -> bool): (r: seq<char>)
    requires i <= |s| && n > 0
    ensures Without(r, Is(marker)) == Without(s[i..], Is(marker))
    ensures Subseq(r, s[i..])
    ensures (forall k | i <= k < |s| :: s[k] != marker) ==> r == s[i..]
    ensures i < |s| && SpanAt(s, i, marker, n, inner).None? ==> |r| > 0 && r[0] == s[i]
    ensures SpanAt(s, i, marker, n, inner).Some? ==>
      var j := SpanAt(s, i, marker, n, inner).value;
      s[i + n..j] <= r && Subseq(r, s[i + n..j] + s[j + n..])
    decreases |s| - i
  {
    if i == |s| then []
    else
      match SpanAt(s, i, marker, n, inner)
      case Some(j) =>
        var rest := UnwrapFrom(s, j + n, marker, n, inner);
        UnwrapSpan(s, i, j, marker, n, rest);
        s[i + n..j] + rest
      case None =>
        var rest := UnwrapFrom(s, i + 1, marker, n, inner);
        KeepHead(s, i, rest, Is(marker));
        [s[i]] + rest
  }

  /** Filtering the markers out of a run of `n` markers at `i` leaves what follows the run. */
  lemma SkipMarkers(s: seq<char>, i: nat, marker: char, n: nat)
    requires i + n <= |s| && s[i..i + n] == Repeat(marker, n)
    ensures Without(s[i..], Is(marker)) == Without(s[i + n..], Is(marker))
  {
    assert forall k | i <= k < i + n :: s[k] == s[i..i + n][k - i];
    WithoutSkip(s, i, i + n, Is(marker));
  }

  /** Replacing the span `open X open` at `i` by `X` removes only markers. */
  lemma UnwrapSpanFrame(s: seq<char>, i: nat, j: nat, marker: char, n: nat, rest: seq<char>)
    requires i + n <= j && j + n <= |s|
    requires s[i..i + n] == Repeat(marker, n) && s[j..j + n] == Repeat(marker, n)
    requires Without(rest, Is(marker)) == Without(s[j + n..], Is(marker))
    ensures Without(s[i + n..j] + rest, Is(marker)) == Without(s[i..], Is(marker))
  {
    SkipMarkers(s, i, marker, n);
    assert s[i + n..] == s[i + n..j] + s[j..];
    WithoutConcat(s[i + n..j], s[j..], Is(marker));
    SkipMarkers(s, j, marker, n);
    WithoutConcat(s[i + n..j], rest, Is(marker));
  }

  /**
   * Replacing the span `open X open` at `i` by `X` removes only markers, keeps
   * a subsequence, and the span starts with the marker.
   */
  lemma UnwrapSpan(s: seq<char>, i: nat, j: nat, marker: char, n: nat, rest: seq<char>)
    requires n > 0 && i + n <= j && j + n <= |s|
    requires s[i..i + n] == Repeat(marker, n) && s[j..j + n] == Repeat(marker, n)
    requires Without(rest, Is(marker)) == Without(s[j + n..], Is(marker))
    requires Subseq(rest, s[j + n..])
    ensures Without(s[i + n..j] + rest, Is(marker)) == Without(s[i..], Is(marker))
    ensures Subseq(s[i + n..j] + rest, s[i..])
    ensures Subseq(s[i + n..j] + rest, s[i + n..j] + s[j + n..])
    ensures s[i] == marker
  {
    UnwrapSpanFrame(s, i, j, marker, n, rest);
    SubseqSpan(s, i, i + n, j, j + n, rest);
    assert s[i..i + n][0] == marker;
  }

  predicate IsHashOrSpace(c: char) { c == '#' || IsSpace(c) }

  /**
   * Where `^#{1,6}\s+` (under `re.MULTILINE`) matches at `i`: the end of the
   * whitespace run after one to six `#` at the start of a line.
   */
  function HeaderAt(s: seq<char>, i: nat): (r: Option<nat>)
    requires i <= |s|
    ensures r.Some? ==> AtLineStart(s, i) && i < r.value <= |s| && s[i] == '#'
    ensures r.Some? ==> forall k | i <= k < r.value :: IsHashOrSpace(s[k])
    ensures r.Some? ==> r.value == |s| || !IsSpace(s[r.value])
    ensures r.Some? ==> exists h | i < h <= i + 6 && h < |s| ::
      && (forall k | i <= k < h :: s[k] == '#') && IsSpace(s[h]) && r.value == SpaceRunEnd(s, h)
    ensures r.None? <==>
      || !AtLineStart(s, i)
      || forall h | i < h <= i + 6 && h < |s| && IsSpace(s[h]) :: exists k | i <= k < h :: s[k] != '#'
  {
    var h := CharRunEnd(s, i, '#');
    if AtLineStart(s, i) && i + 1 <= h <= i + 6 && h < |s| && IsSpace(s[h]) then
      Some(SpaceRunEnd(s, h))
    else
      assert forall g | i < g <= i + 6 && g < |s| && IsSpace(s[g]) && g != h :: s[if g < h then g else h] != '#';
      None
  }

  /** `re.sub(r'^#{1,6}\s+', '', text, flags=re.MULTILINE)`: drops header markers and the whitespace after them. */
  function HeadersFrom(s: seq<char>, i: nat): (r: seq<char>)
    requires i <= |s|
    ensures Without(r, IsHashOrSpace) == Without(s[i..], IsHashOrSpace)
    ensures Subseq(r, s[i..])
    ensures (forall k | i <= k < |s| :: s[k] != '#') ==> r == s[i..]
    ensures i < |s| && HeaderAt(s, i).None? ==> |r| > 0 && r[0] == s[i]
    ensures HeaderAt(s, i).Some? ==> Subseq(r, s[HeaderAt(s, i).value..])
    decreases |s| - i
  {
    if i == |s| then []
    else if HeaderAt(s, i).Some? then
      var e := HeaderAt(s, i).value;
      var rest := HeadersFrom(s, e);
      WithoutSkip(s, i, e, IsHashOrSpace);
      SubseqLater(s, i, e, rest);
      rest
    else
      var rest := HeadersFrom(s, i + 1);
      KeepHead(s, i, rest, IsHashOrSpace);
      [s[i]] + rest
  }

  /**
   * Where `` ```[\s\S]*?``` `` matches at `i`: the end of the first closing
   * fence after the opening one.
   */
  function BlockAt(s: seq<char>, i: nat): (r: Option<nat>)
    requires i <= |s|
    ensures r.Some? ==> HasAt(s, i, "```") && i + 6 <= r.value <= |s| && HasAt(s, r.value - 3, "```")
    ensures r.Some? ==> forall k | i + 3 <= k < r.value - 3 :: !HasAt(s, k, "```")
    ensures r.None? <==> !HasAt(s, i, "```") || forall k | i + 3 <= k :: !HasAt(s, k, "```")
  {
    if HasAt(s, i, "```") then
      match FindClose(s, i + 3, "```", AnyChar)
      case Some(j) => Some(j + 3)
      case None => None
    else None
  }

  /** `re.sub(r'```[\s\S]*?```', '', text)`: deletes fenced blocks, line feeds included. */
  function CodeBlocksFrom(s: seq<char>, i: nat): (r: seq<char>)
    requires i <= |s|
    ensures Subseq(r, s[i..])
    ensures (forall k | i <= k < |s| :: s[k] != '`') ==> r == s[i..]
    ensures i < |s| && BlockAt(s, i).None? ==> |r| > 0 && r[0] == s[i]
    ensures BlockAt(s, i).Some? ==> Subseq(r, s[BlockAt(s, i).value..])
    decreases |s| - i
  {
    if i == |s| then []
    else if BlockAt(s, i).Some? then
      var e := BlockAt(s, i).value;
      var rest := CodeBlocksFrom(s, e);
      SubseqLater(s, i, e, rest);
      assert s[i..i + 3][0] == '`';
      rest
    else
      var rest := CodeBlocksFrom(s, i + 1);
      CopyHead(s, i, rest);
      [s[i]] + rest
  }

  /** The first `c` at or after `from`, if any. */
  function FirstAt(s: seq<char>, from: nat, c: char): (r: Option<nat>)
    requires from <= |s|
    ensures r.Some? ==> from <= r.value < |s| && s[r.value] == c
    ensures r.Some? ==> forall k | from <= k < r.value :: s[k] != c
    ensures r.None? ==> forall k | from <= k < |s| :: s[k] != c
    decreases |s| - from
  {
    if from == |s| then None
    else if s[from] == c then Some(from)
    else FirstAt(s, from + 1, c)
  }

  /**
   * `[^c]+c` tried from `from`: the index of the first `c` when at least one
   * other character comes before it. It fails exactly when the text ends at
   * `from`, starts there with `c`, or has no `c` from there on.
   */
  function CloseAfter(s: seq<char>, from: nat, c: char): (r: Option<nat>)
    requires from <= |s|
    ensures r.Some? ==> from < r.value < |s| && s[r.value] == c
    ensures r.Some? ==> forall k | from <= k < r.value :: s[k] != c
    ensures r.None? <==> from == |s| || s[from] == c || forall k | from <= k < |s| :: s[k] != c
  {
    if from < |s| && s[from] != c then FirstAt(s, from + 1, c) else None
  }

  /**
   * Where `` `([^`]+)` `` matches at `i`: the index of the closing backtick.
   * It fails exactly when no backtick opens at `i`, the next character is one,
   * or no later backtick closes it.
   */
  function CodeSpanAt(s: seq<char>, i: nat): (r: Option<nat>)
    requires i <= |s|
    ensures r.Some? ==> i + 1 < r.value < |s| && s[i] == '`' && s[r.value] == '`'
    ensures r.Some? ==> forall k | i < k < r.value :: s[k] != '`'
    ensures r.None? <==> i + 1 >= |s| || s[i] != '`' || s[i + 1] == '`' || forall k | i < k < |s| :: s[k] != '`'
  {
    if i < |s| && s[i] == '`' then CloseAfter(s, i + 1, '`') else None
  }

  /** `` re.sub(r'`([^`]+)`', r'\1', text) ``: inline code spans keep their text; only backticks are removed. */
  function InlineCodeFrom(s: seq<char>, i: nat): (r: seq<char>)
    requires i <= |s|
    ensures Without(r, Is('`')) == Without(s[i..], Is('`'))
    ensures Subseq(r, s[i..])
    ensures (forall k | i <= k < |s| :: s[k] != '`') ==> r == s[i..]
    ensures i < |s| && CodeSpanAt(s, i).None? ==> |r| > 0 && r[0] == s[i]
    ensures CodeSpanAt(s, i).Some? ==>
      var j := CodeSpanAt(s, i).value;
      s[i + 1..j] <= r && Subseq(r, s[i + 1..j] + s[j + 1..])
    decreases |s| - i
  {
    if i == |s| then []
    else
      match CodeSpanAt(s, i)
      case Some(j) =>
        var rest := InlineCodeFrom(s, j + 1);
        InlineSpan(s, i, j, rest);
        s[i + 1..j] + rest
      case None =>
        var rest := InlineCodeFrom(s, i + 1);
        KeepHead(s, i, rest, Is('`'));
        [s[i]] + rest
  }

  /** Dropping the two backticks around `s[i + 1..j]` removes only backticks. */
  lemma InlineSpanFrame(s: seq<char>, i: nat, j: nat, rest: seq<char>)
    requires i < j < |s| && s[i] == '`' && s[j] == '`'
    requires Without(rest, Is('`')) == Without(s[j + 1..], Is('`'))
    ensures Without(s[i + 1..j] + rest, Is('`')) == Without(s[i..], Is('`'))
  {
    WithoutStep(s, i, Is('`'));
    assert s[i + 1..] == s[i + 1..j] + s[j..];
    WithoutConcat(s[i + 1..j], s[j..], Is('`'));
    WithoutStep(s, j, Is('`'));
    WithoutConcat(s[i + 1..j], rest, Is('`'));
  }

  /** Dropping the two backticks around `s[i + 1..j]` removes only backticks and keeps a subsequence. */
  lemma InlineSpan(s: seq<char>, i: nat, j: nat, rest: seq<char>)
    requires i < j < |s| && s[i] == '`' && s[j] == '`'
    requires Without(rest, Is('`')) == Without(s[j + 1..], Is('`'))
    requires Subseq(rest, s[j + 1..])
    ensures Without(s[i + 1..j] + rest, Is('`')) == Without(s[i..], Is('`'))
    ensures Subseq(s[i + 1..j] + rest, s[i..])
    ensures Subseq(s[i + 1..j] + rest, s[i + 1..j] + s[j + 1..])
  {
    InlineSpanFrame(s, i, j, rest);
    SubseqSpan(s, i, i + 1, j, j + 1, rest);
  }

  /**
   * `\[([^\]]+)\]\([^\)]+\)` matches at `i` with the `]` closing the link text
   * at `j` and the `)` closing the target at `k`.
   */
  ghost predicate LinkShape(s: seq<char>, i: nat, j: nat, k: nat) {
    && i + 1 < j && j + 2 < k < |s|
    && s[i] == '[' && s[j] == ']' && s[j + 1] == '(' && s[k] == ')'
    && (forall m | i < m < j :: s[m] != ']')
    && (forall m | j + 1 < m < k :: s[m] != ')')
  }

  /**
   * Where `\[([^\]]+)\]\([^\)]+\)` matches at `i`: the index of the `]` closing
   * the link text and of the `)` closing the target.
   */
  function LinkAt(s: seq<char>, i: nat): (r: Option<(nat, nat)>)
    requires i < |s|
    ensures r.Some? ==> LinkShape(s, i, r.value.0, r.value.1)
  {
    if s[i] != '[' then None
    else
      var text := CloseAfter(s, i + 1, ']');
      if text.None? then None
      else
        var j := text.value;
        if j + 1 < |s| && s[j + 1] == '(' then
          var target := CloseAfter(s, j + 2, ')');
          if target.None? then None else Some((j, target.value))
        else None
  }

  /** Wherever the link pattern matches, `LinkAt` finds that match: it misses no link. */
  lemma LinkAtComplete(s: seq<char>, i: nat, j: nat, k: nat)
    requires LinkShape(s, i, j, k)
    ensures LinkAt(s, i) == Some((j, k))
  {
    assert s[i + 1] != ']' && s[j] == ']';
    var text := CloseAfter(s, i + 1, ']');
    assert text.Some?;
    assert s[text.value] == ']';
    assert text.value == j;
    assert s[j + 2] != ')' && s[k] == ')';
    var target := CloseAfter(s, j + 2, ')');
    assert target.Some?;
    assert s[target.value] == ')';
    assert target.value == k;
  }

  /** Replacing the link at `i` by its text keeps a subsequence; the link starts with `[`. */
  lemma LinkSpan(s: seq<char>, i: nat, j: nat, k: nat, rest: seq<char>)
    requires LinkShape(s, i, j, k) && Subseq(rest, s[k + 1..])
    ensures Subseq(s[i + 1..j] + rest, s[i..])
    ensures Subseq(s[i + 1..j] + rest, s[i + 1..j] + s[k + 1..])
    ensures s[i] == '['
  {
    SubseqSpan(s, i, i + 1, j, k + 1, rest);
  }

  /** `re.sub(r'\[([^\]]+)\]\([^\)]+\)', r'\1', text)`: a link keeps its text and loses its target. */
  function LinksFrom(s: seq<char>, i: nat): (r: seq<char>)
    requires i <= |s|
    ensures Subseq(r, s[i..])
    ensures (forall k | i <= k < |s| :: s[k] != '[') ==> r == s[i..]
    ensures i < |s| && LinkAt(s, i).None? ==> |r| > 0 && r[0] == s[i]
    ensures i < |s| && LinkAt(s, i).Some? ==>
      var j := LinkAt(s, i).value.0;
      var k := LinkAt(s, i).value.1;
      s[i + 1..j] <= r && Subseq(r, s[i + 1..j] + s[k + 1..])
    decreases |s| - i
  {
    if i == |s| then []
    else if LinkAt(s, i).Some? then
      var j := LinkAt(s, i).value.0;
      var k := LinkAt(s, i).value.1;
      var rest := LinksFrom(s, k + 1);
      LinkSpan(s, i, j, k, rest);
      s[i + 1..j] + rest
    else
      var rest := LinksFrom(s, i + 1);
      CopyHead(s, i, rest);
      [s[i]] + rest
  }

  predicate IsBulletOrSpace(c: char) { c == '*' || c == '-' || IsSpace(c) }

  /** `^[\*\-]\s+` (under `re.MULTILINE`) matches at `i`. */
  predicate BulletAt(s: seq<char>, i: nat)
    requires i <= |s|
  {
    AtLineStart(s, i) && i + 1 < |s| && (s[i] == '*' || s[i] == '-') && IsSpace(s[i + 1])
  }

  /** `re.sub(r'^[\*\-]\s+', '', text, flags=re.MULTILINE)`: drops bullet markers and the whitespace after them. */
  function BulletsFrom(s: seq<char>, i: nat): (r: seq<char>)
    requires i <= |s|
    ensures Without(r, IsBulletOrSpace) == Without(s[i..], IsBulletOrSpace)
    ensures Subseq(r, s[i..])
    ensures (forall k | i <= k < |s| :: s[k] != '*' && s[k] != '-') ==> r == s[i..]
    ensures i < |s| && !BulletAt(s, i) ==> |r| > 0 && r[0] == s[i]
    ensures BulletAt(s, i) ==> Subseq(r, s[SpaceRunEnd(s, i + 1)..])
    decreases |s| - i
  {
    if i == |s| then []
    else if BulletAt(s, i) then
      var e := SpaceRunEnd(s, i + 1);
      var rest := BulletsFrom(s, e);
      WithoutSkip(s, i, e, IsBulletOrSpace);
      SubseqLater(s, i, e, rest);
      rest
    else
      var rest := BulletsFrom(s, i + 1);
      KeepHead(s, i, rest, IsBulletOrSpace);
      [s[i]] + rest
  }

  // ---------------------------------------------------------------------
  // Step by step: a match is replaced and the scan resumes behind it;
  // text before the next marker is copied as it is

  /** After an emphasis match, the span's inner text is kept and the scan resumes behind the closing marker. */
  lemma UnwrapMatch(s: seq<char>, i: nat, marker: char, n: nat, inner: char -> bool)
    requires i <= |s| && n > 0 && SpanAt(s, i, marker, n, inner).Some?
    ensures var j := SpanAt(s, i, marker, n, inner).value;
      UnwrapFrom(s, i, marker, n, inner) == s[i + n..j] + UnwrapFrom(s, j + n, marker, n, inner)
  {
  }

  /** `UnwrapFrom` copies a character other than the marker: no match starts there. */
  lemma UnwrapCopy(s: seq<char>, i: nat, marker: char, n: nat, inner: char -> bool)
    requires i < |s| && n > 0 && s[i] != marker
    ensures UnwrapFrom(s, i, marker, n, inner) == [s[i]] + UnwrapFrom(s, i + 1, marker, n, inner)
  {
    if i + n <= |s| {
      assert s[i..i + n][0] != Repeat(marker, n)[0];
    }
  }

  /** `UnwrapFrom` copies every character up to the next marker. */
  lemma {:induction false} UnwrapCopies(s: seq<char>, i: nat, k: nat, marker: char, n: nat, inner: char -> bool)
    requires i <= k <= |s| && n > 0
    requires forall q | i <= q < k :: s[q] != marker
    ensures UnwrapFrom(s, i, marker, n, inner) == s[i..k] + UnwrapFrom(s, k, marker, n, inner)
    decreases k - i
  {
    if i < k {
      UnwrapCopy(s, i, marker, n, inner);
      UnwrapCopies(s, i + 1, k, marker, n, inner);
      SliceCons(s, i, k, UnwrapFrom(s, k, marker, n, inner));
    } else {
      SliceEmpty(s, i, UnwrapFrom(s, k, marker, n, inner));
    }
  }

  /** Where the markers of "Hello **world**!" are, and what is left without them. */
  lemma BoldExampleText(s: seq<char>)
    requires s == "Hello **world**!"
    ensures |s| == 16 && Repeat('*', 2) == "**"
    ensures HasAt(s, 6, "**") && HasAt(s, 13, "**")
    ensures forall q | 0 <= q < 6 :: s[q] != '*'
    ensures forall q | 8 <= q < 13 :: NotNewline(s[q]) && !HasAt(s, q, "**")
    ensures forall q | 15 <= q < 16 :: s[q] != '*'
    ensures s[0..6] + (s[8..13] + (s[15..16] + [])) == "Hello world!"
  {
    forall q | 8 <= q < 13
      ensures !HasAt(s, q, "**")
    {
      assert s[q..q + 2][0] == s[q] != '*';
    }
    assert s[0..6] == "Hello " && s[8..13] == "world" && s[15..16] + [] == "!";
  }

  /** In "Hello **world**!" the bold span opens at index 6 and becomes "world". */
  lemma BoldExampleSpan(s: seq<char>)
    requires s == "Hello **world**!"
    ensures UnwrapFrom(s, 6, '*', 2, NotNewline) == s[8..13] + UnwrapFrom(s, 15, '*', 2, NotNewline)
  {
    BoldExampleText(s);
    FindCloseFirst(s, 8, 13, "**", NotNewline);
    assert SpanAt(s, 6, '*', 2, NotNewline) == Some(13);
  }

  /** The bold span in "Hello **world**!" is replaced by its contents, and the text around it is kept. */
  lemma BoldWordUnwrapped()
    ensures UnwrapFrom("Hello **world**!", 0, '*', 2, NotNewline) == "Hello world!"
  {
    var s := "Hello **world**!";
    BoldExampleText(s);
    calc {
      UnwrapFrom(s, 0, '*', 2, NotNewline);
      == { UnwrapCopies(s, 0, 6, '*', 2, NotNewline); }
      s[0..6] + UnwrapFrom(s, 6, '*', 2, NotNewline);
      == { BoldExampleSpan(s); }
      s[0..6] + (s[8..13] + UnwrapFrom(s, 15, '*', 2, NotNewline));
      == { UnwrapCopies(s, 15, 16, '*', 2, NotNewline); }
      s[0..6] + (s[8..13] + (s[15..16] + UnwrapFrom(s, 16, '*', 2, NotNewline)));
      == { assert UnwrapFrom(s, 16, '*', 2, NotNewline) == []; }
      s[0..6] + (s[8..13] + (s[15..16] + []));
      ==
      "Hello world!";
    }
  }

  /** After a header match, the scan resumes behind the whitespace it removed. */
  lemma HeadersMatch(s: seq<char>, i: nat)
    requires i <= |s| && HeaderAt(s, i).Some?
    ensures HeadersFrom(s, i) == HeadersFrom(s, HeaderAt(s, i).value)
  {
  }

  /** `HeadersFrom` copies a character other than `#`: no match starts there. */
  lemma HeadersCopy(s: seq<char>, i: nat)
    requires i < |s| && s[i] != '#'
    ensures HeadersFrom(s, i) == [s[i]] + HeadersFrom(s, i + 1)
  {
  }

  /** `HeadersFrom` copies every character up to the next `#`. */
  lemma {:induction false} HeadersCopies(s: seq<char>, i: nat, k: nat)
    requires i <= k <= |s|
    requires forall q | i <= q < k :: s[q] != '#'
    ensures HeadersFrom(s, i) == s[i..k] + HeadersFrom(s, k)
    decreases k - i
  {
    if i < k {
      HeadersCopy(s, i);
      HeadersCopies(s, i + 1, k);
      SliceCons(s, i, k, HeadersFrom(s, k));
    } else {
      SliceEmpty(s, i, HeadersFrom(s, k));
    }
  }

  /** After a fenced block, the scan resumes behind its closing fence. */
  lemma CodeBlocksMatch(s: seq<char>, i: nat)
    requires i <= |s| && BlockAt(s, i).Some?
    ensures CodeBlocksFrom(s, i) == CodeBlocksFrom(s, BlockAt(s, i).value)
  {
  }

  /** `CodeBlocksFrom` copies a character other than a backtick: no match starts there. */
  lemma CodeBlocksCopy(s: seq<char>, i: nat)
    requires i < |s| && s[i] != '`'
    ensures CodeBlocksFrom(s, i) == [s[i]] + CodeBlocksFrom(s, i + 1)
  {
    if i + 3 <= |s| {
      assert s[i..i + 3][0] == s[i];
    }
  }

  /** `CodeBlocksFrom` copies every character up to the next backtick. */
  lemma {:induction false} CodeBlocksCopies(s: seq<char>, i: nat, k: nat)
    requires i <= k <= |s|
    requires forall q | i <= q < k :: s[q] != '`'
    ensures CodeBlocksFrom(s, i) == s[i..k] + CodeBlocksFrom(s, k)
    decreases k - i
  {
    if i < k {
      CodeBlocksCopy(s, i);
      CodeBlocksCopies(s, i + 1, k);
      SliceCons(s, i, k, CodeBlocksFrom(s, k));
    } else {
      SliceEmpty(s, i, CodeBlocksFrom(s, k));
    }
  }

  /** After an inline-code match, its text is kept and the scan resumes behind the closing backtick. */
  lemma InlineCodeMatch(s: seq<char>, i: nat)
    requires i <= |s| && CodeSpanAt(s, i).Some?
    ensures var j := CodeSpanAt(s, i).value;
      InlineCodeFrom(s, i) == s[i + 1..j] + InlineCodeFrom(s, j + 1)
  {
  }

  /** `InlineCodeFrom` copies a character other than a backtick: no match starts there. */
  lemma InlineCodeCopy(s: seq<char>, i: nat)
    requires i < |s| && s[i] != '`'
    ensures InlineCodeFrom(s, i) == [s[i]] + InlineCodeFrom(s, i + 1)
  {
  }

  /** `InlineCodeFrom` copies every character up to the next backtick. */
  lemma {:induction false} InlineCodeCopies(s: seq<char>, i: nat, k: nat)
    requires i <= k <= |s|
    requires forall q | i <= q < k :: s[q] != '`'
    ensures InlineCodeFrom(s, i) == s[i..k] + InlineCodeFrom(s, k)
    decreases k - i
  {
    if i < k {
      InlineCodeCopy(s, i);
      InlineCodeCopies(s, i + 1, k);
      SliceCons(s, i, k, InlineCodeFrom(s, k));
    } else {
      SliceEmpty(s, i, InlineCodeFrom(s, k));
    }
  }

  /** After a link, its text is kept and the scan resumes behind the `)` that closes its target. */
  lemma LinksMatch(s: seq<char>, i: nat)
    requires i < |s| && LinkAt(s, i).Some?
    ensures var (j, k) := LinkAt(s, i).value;
      LinksFrom(s, i) == s[i + 1..j] + LinksFrom(s, k + 1)
  {
  }

  /** `LinksFrom` copies a character other than `[`: no match starts there. */
  lemma LinksCopy(s: seq<char>, i: nat)
    requires i < |s| && s[i] != '['
    ensures LinksFrom(s, i) == [s[i]] + LinksFrom(s, i + 1)
  {
  }

  /** `LinksFrom` copies every character up to the next `[`. */
  lemma {:induction false} LinksCopies(s: seq<char>, i: nat, k: nat)
    requires i <= k <= |s|
    requires forall q | i <= q < k :: s[q] != '['
    ensures LinksFrom(s, i) == s[i..k] + LinksFrom(s, k)
    decreases k - i
  {
    if i < k {
      LinksCopy(s, i);
      LinksCopies(s, i + 1, k);
      SliceCons(s, i, k, LinksFrom(s, k));
    } else {
      SliceEmpty(s, i, LinksFrom(s, k));
    }
  }

  /** After a bullet, the scan resumes behind the whitespace that follows its marker. */
  lemma BulletsMatch(s: seq<char>, i: nat)
    requires i <= |s| && BulletAt(s, i)
    ensures BulletsFrom(s, i) == BulletsFrom(s, SpaceRunEnd(s, i + 1))
  {
  }

  /** `BulletsFrom` copies a character other than `*` or `-`: no match starts there. */
  lemma BulletsCopy(s: seq<char>, i: nat)
    requires i < |s| && s[i] != '*' && s[i] != '-'
    ensures BulletsFrom(s, i) == [s[i]] + BulletsFrom(s, i + 1)
  {
  }

  /** `BulletsFrom` copies every character up to the next `*` or `-`. */
  lemma {:induction false} BulletsCopies(s: seq<char>, i: nat, k: nat)
    requires i <= k <= |s|
    requires forall q | i <= q < k :: s[q] != '*' && s[q] != '-'
    ensures BulletsFrom(s, i) == s[i..k] + BulletsFrom(s, k)
    decreases k - i
  {
    if i < k {
      BulletsCopy(s, i);
      BulletsCopies(s, i + 1, k);
      SliceCons(s, i, k, BulletsFrom(s, k));
    } else {
      SliceEmpty(s, i, BulletsFrom(s, k));
    }
  }

  /** `re.sub(r'\s{2,}', ' ', text)`: each run of two or more whitespace characters becomes one space. */
  function SingleSpacesFrom(s: seq<char>, i: nat): (r: seq<char>)
    requires i <= |s|
    ensures |r| > 0 ==> i < |s| && (r[0] == s[i] || (r[0] == ' ' && IsSpace(s[i])))
    ensures NoDoubleSpace(r)
    decreases |s| - i
  {
    if i == |s| then []
    else if SpaceRunEnd(s, i) >= i + 2 then " " + SingleSpacesFrom(s, SpaceRunEnd(s, i))
    else [s[i]] + SingleSpacesFrom(s, i + 1)
  }

  /** Collapsing whitespace removes nothing but whitespace. */
  lemma {:induction false} SingleSpacesSpoken(s: seq<char>, i: nat)
    requires i <= |s|
    ensures Without(SingleSpacesFrom(s, i), IsSpace) == Without(s[i..], IsSpace)
    decreases |s| - i
  {
    if i < |s| {
      if SpaceRunEnd(s, i) >= i + 2 {
        var j := SpaceRunEnd(s, i);
        SingleSpacesSpoken(s, j);
        WithoutConcat(" ", SingleSpacesFrom(s, j), IsSpace);
        WithoutSkip(s, i, j, IsSpace);
      } else {
        SingleSpacesSpoken(s, i + 1);
        WithoutConcat([s[i]], SingleSpacesFrom(s, i + 1), IsSpace);
        WithoutStep(s, i, IsSpace);
      }
    }
  }

  /** `SingleSpacesFrom` copies a character that does not start a run of two or more whitespace characters. */
  lemma SingleSpacesCopy(s: seq<char>, i: nat)
    requires i < |s| && SpaceRunEnd(s, i) < i + 2
    ensures SingleSpacesFrom(s, i) == [s[i]] + SingleSpacesFrom(s, i + 1)
  {
  }

  /**
   * `SingleSpacesFrom` agrees with the run-by-run reference: every maximal
   * run of two or more whitespace characters becomes one space, and every
   * other character is kept.
   */
  lemma {:induction false} SingleSpacesRuns(s: seq<char>, i: nat)
    requires i <= |s|
    ensures SingleSpacesFrom(s, i) == CollapseRuns(s, i, IsSpace, 2, " ")
    decreases |s| - i
  {
    if i < |s| {
      SpaceRunIsRun(s, i);
      var j := RunEnd(s, i, IsSpace);
      if IsSpace(s[i]) {
        SingleSpacesRuns(s, j);
        if j < i + 2 {
          SingleSpacesCopy(s, i);
          assert s[i..j] == [s[i]];
        }
      } else {
        SingleSpacesRuns(s, i + 1);
      }
    }
  }

  /** Stripping a text keeps it free of double whitespace. */
  lemma StripSingleSpaced(t: seq<char>)
    requires NoDoubleSpace(t)
    ensures NoDoubleSpace(Strip(t))
  {
    var r := Strip(t);
    assert forall k | 0 <= k < |r| :: r[k] == t[SpaceRunEnd(t, 0) + k];
  }

  /** The ten substitutions of `clean_markdown`, in the order the code applies them (before `strip()`). */
  function Substituted(s: seq<char>): (r: seq<char>)
    ensures NoDoubleSpace(r)
  {
    var bold1 := UnwrapFrom(s, 0, '*', 2, NotNewline);
    var bold2 := UnwrapFrom(bold1, 0, '_', 2, NotNewline);
    var italic1 := UnwrapFrom(bold2, 0, '*', 1, NotNewline);
    var italic2 := UnwrapFrom(italic1, 0, '_', 1, NotNewline);
    var headers := HeadersFrom(italic2, 0);
    var blocks := CodeBlocksFrom(headers, 0);
    var inline := InlineCodeFrom(blocks, 0);
    var links := LinksFrom(inline, 0);
    var bullets := BulletsFrom(links, 0);
    SingleSpacesFrom(bullets, 0)
  }

  /**
   * `clean_markdown`: the result has no whitespace at either end and never
   * two whitespace characters in a row.
   */
  function CleanMarkdown(s: seq<char>): (r: seq<char>)
    ensures Trimmed(r)
    ensures NoDoubleSpace(r)
  {
    var t := Substituted(s);
    StripSingleSpaced(t);
    Strip(t)
  }

  /** The characters every Markdown pattern of `clean_markdown` needs: emphasis, header, code, link and bullet markers. */
  predicate Markup(c: char) {
    c == '*' || c == '_' || c == '#' || c == '`' || c == '[' || c == '-'
  }

  /** Text without emphasis markers passes the four emphasis substitutions unchanged. */
  lemma PlainEmphasisUnchanged(s: seq<char>)
    requires forall k | 0 <= k < |s| :: s[k] != '*' && s[k] != '_'
    ensures UnwrapFrom(UnwrapFrom(UnwrapFrom(UnwrapFrom(s, 0, '*', 2, NotNewline), 0, '_', 2, NotNewline),
      0, '*', 1, NotNewline), 0, '_', 1, NotNewline) == s
  {
    assert s[0..] == s;
    assert UnwrapFrom(s, 0, '*', 2, NotNewline) == s;
    assert UnwrapFrom(s, 0, '_', 2, NotNewline) == s;
    assert UnwrapFrom(s, 0, '*', 1, NotNewline) == s;
  }

  /** Text without header, code, link or bullet markers passes those five substitutions unchanged. */
  lemma PlainStructureUnchanged(s: seq<char>)
    requires forall k | 0 <= k < |s| :: s[k] != '#' && s[k] != '`' && s[k] != '[' && s[k] != '*' && s[k] != '-'
    ensures BulletsFrom(LinksFrom(InlineCodeFrom(CodeBlocksFrom(HeadersFrom(s, 0), 0), 0), 0), 0) == s
  {
    assert s[0..] == s;
    assert HeadersFrom(s, 0) == s;
    assert CodeBlocksFrom(s, 0) == s;
    assert InlineCodeFrom(s, 0) == s;
    assert LinksFrom(s, 0) == s;
  }

  /** Text without Markdown syntax passes the ten substitutions unchanged. */
  lemma PlainTextUnchanged(s: seq<char>)
    requires forall k | 0 <= k < |s| :: !Markup(s[k])
    ensures Substituted(s) == SingleSpacesFrom(s, 0)
  {
    PlainEmphasisUnchanged(s);
    PlainStructureUnchanged(s);
  }

  /** `clean_markdown` changes text without Markdown syntax only in its whitespace. */
  lemma PlainTextKept(s: seq<char>)
    requires forall k | 0 <= k < |s| :: !Markup(s[k])
    ensures Without(CleanMarkdown(s), IsSpace) == Without(s, IsSpace)
  {
    PlainTextUnchanged(s);
    var t := SingleSpacesFrom(s, 0);
    SingleSpacesSpoken(s, 0);
    assert s[0..] == s;
    StripSpoken(t);
  }

  /** The nine Markdown substitutions only delete characters. */
  lemma SubstitutionsDelete(s: seq<char>)
    ensures Subseq(BulletsFrom(LinksFrom(InlineCodeFrom(CodeBlocksFrom(HeadersFrom(
      UnwrapFrom(UnwrapFrom(UnwrapFrom(UnwrapFrom(s, 0, '*', 2, NotNewline), 0, '_', 2, NotNewline),
        0, '*', 1, NotNewline), 0, '_', 1, NotNewline), 0), 0), 0), 0), 0), s)
  {
    var bold1 := UnwrapFrom(s, 0, '*', 2, NotNewline);
    var bold2 := UnwrapFrom(bold1, 0, '_', 2, NotNewline);
    var italic1 := UnwrapFrom(bold2, 0, '*', 1, NotNewline);
    var italic2 := UnwrapFrom(italic1, 0, '_', 1, NotNewline);
    var headers := HeadersFrom(italic2, 0);
    var blocks := CodeBlocksFrom(headers, 0);
    var inline := InlineCodeFrom(blocks, 0);
    var links := LinksFrom(inline, 0);
    var bullets := BulletsFrom(links, 0);
    assert s[0..] == s && bold1[0..] == bold1 && bold2[0..] == bold2;
    assert italic1[0..] == italic1 && italic2[0..] == italic2 && headers[0..] == headers;
    assert blocks[0..] == blocks && inline[0..] == inline && links[0..] == links;
    SubseqTrans(bold2, bold1, s);
    SubseqTrans(italic1, bold2, s);
    SubseqTrans(italic2, italic1, s);
    SubseqTrans(headers, italic2, s);
    SubseqTrans(blocks, headers, s);
    SubseqTrans(inline, blocks, s);
    SubseqTrans(links, inline, s);
    SubseqTrans(bullets, links, s);
  }

  /**
   * Apart from whitespace, `clean_markdown` only deletes: what it keeps was in
   * the text, in the same order.
   */
  lemma CleanMarkdownDeletes(s: seq<char>)
    ensures Subseq(Without(CleanMarkdown(s), IsSpace), Without(s, IsSpace))
  {
    SubstitutionsDelete(s);
    var bullets := BulletsFrom(LinksFrom(InlineCodeFrom(CodeBlocksFrom(HeadersFrom(
      UnwrapFrom(UnwrapFrom(UnwrapFrom(UnwrapFrom(s, 0, '*', 2, NotNewline), 0, '_', 2, NotNewline),
        0, '*', 1, NotNewline), 0, '_', 1, NotNewline), 0), 0), 0), 0), 0);
    var t := SingleSpacesFrom(bullets, 0);
    assert Substituted(s) == t;
    SubseqWithout(bullets, s, IsSpace);
    SingleSpacesSpoken(bullets, 0);
    assert bullets[0..] == bullets;
    StripSpoken(t);
  }
}
