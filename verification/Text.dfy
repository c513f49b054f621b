/** Text as the three programs see it: a sequence of code units (JavaScript)
    or of code points (Python, Go), each a natural number.

    Each language has its own notion of white space, so the functions below
    take the space test as a parameter.
*/
module Text {
  type Text = seq<nat>

  const SPACE: nat := 0x20
  const NEWLINE: nat := 0x0A

  /** White space that all three languages agree on. */
  predicate CommonSpace(c: nat) {
    || 0x09 <= c <= 0x0D || c == 0x20 || c == 0xA0 || c == 0x1680
    || 0x2000 <= c <= 0x200A || c == 0x2028 || c == 0x2029
    || c == 0x202F || c == 0x205F || c == 0x3000
  }

  /** What String.prototype.trim removes. */
  predicate JsSpace(c: nat) { CommonSpace(c) || c == 0xFEFF }

  /** What str.split() with no argument splits on. */
  predicate PySpace(c: nat) { CommonSpace(c) || 0x1C <= c <= 0x1F || c == 0x85 }

  /** Go's unicode.IsSpace. */
  predicate GoSpace(c: nat) { CommonSpace(c) || c == 0x85 }

  /** The white space of the three languages, character by character, and where they differ. */
  lemma SpacesAre(c: nat)
    ensures JsSpace(c) && GoSpace(c) && PySpace(c) <==>
      c in {'\t' as nat, '\n' as nat, 0x0B, 0x0C, '\r' as nat, ' ' as nat, 0xA0, 0x1680, 0x2000, 0x2001, 0x2002, 0x2003,
            0x2004, 0x2005, 0x2006, 0x2007, 0x2008, 0x2009, 0x200A, 0x2028, 0x2029, 0x202F, 0x205F, 0x3000}
    ensures JsSpace(c) && !(GoSpace(c) && PySpace(c)) <==> c == 0xFEFF
    ensures GoSpace(c) && !JsSpace(c) <==> c == 0x85
    ensures PySpace(c) && !JsSpace(c) <==> c in {0x1C, 0x1D, 0x1E, 0x1F, 0x85}
  {
  }

  function TrimLeft(s: Text, space: nat -> bool): (r: Text)
    ensures |r| <= |s| && r == s[|s| - |r|..]
    ensures r != [] ==> !space(r[0])
  {
    if s == [] || !space(s[0]) then s else TrimLeft(s[1..], space)
  }

  function TrimRight(s: Text, space: nat -> bool): (r: Text)
    ensures |r| <= |s| && r == s[..|r|]
    ensures r != [] ==> !space(r[|r| - 1])
  {
    if s == [] || !space(s[|s| - 1]) then s else TrimRight(s[..|s| - 1], space)
  }

  function Trim(s: Text, space: nat -> bool): (r: Text)
    ensures |r| <= |s|
  {
    TrimRight(TrimLeft(s, space), space)
  }

  ghost predicate Trimmed(s: Text, space: nat -> bool) {
    s != [] ==> !space(s[0]) && !space(s[|s| - 1])
  }

  lemma TrimLeftFirst(s: Text, space: nat -> bool)
    requires s != []
    ensures TrimLeft(s, space) == if space(s[0]) then TrimLeft(s[1..], space) else s
  {
  }

  lemma {:induction false} TrimLeftEmpty(s: Text, space: nat -> bool)
    requires TrimLeft(s, space) == []
    ensures forall i :: 0 <= i < |s| ==> space(s[i])
  {
    hide TrimLeft;
    if s != [] {
      TrimLeftFirst(s, space);
      TrimLeftEmpty(s[1..], space);
      forall i | 0 <= i < |s| ensures space(s[i]) {
        if i > 0 { assert s[i] == s[1..][i - 1]; }
      }
    }
  }

  lemma {:induction false} TrimRightEmpty(s: Text, space: nat -> bool)
    requires TrimRight(s, space) == []
    ensures forall i :: 0 <= i < |s| ==> space(s[i])
  {
    if s != [] {
      TrimRightEmpty(s[..|s| - 1], space);
      forall i | 0 <= i < |s| ensures space(s[i]) {
        if i < |s| - 1 { assert s[i] == s[..|s| - 1][i]; }
      }
    }
  }

  lemma TrimTrims(s: Text, space: nat -> bool)
    ensures Trimmed(Trim(s, space), space) && |Trim(s, space)| <= |s|
    ensures Trimmed(s, space) ==> Trim(s, space) == s
    ensures s != [] && !space(s[0]) ==> Trim(s, space) != []
    ensures s != [] && !space(s[|s| - 1]) ==> Trim(s, space) != []
  {
    var left := TrimLeft(s, space);
    var r := TrimRight(left, space);
    if r == [] && left != [] { TrimRightEmpty(left, space); }
    if left == [] && s != [] { TrimLeftEmpty(s, space); }
    if s != [] && !space(s[|s| - 1]) && left != [] {
      assert left[|left| - 1] == s[|s| - 1];
    }
  }

  /** The characters of s that are not white space, in order. */
  function Visible(s: Text, space: nat -> bool): Text {
    if s == [] then []
    else (if space(s[0]) then [] else [s[0]]) + Visible(s[1..], space)
  }

  lemma {:induction false} VisibleConcat(a: Text, b: Text, space: nat -> bool)
    ensures Visible(a + b, space) == Visible(a, space) + Visible(b, space)
  {
    if a == [] {
      assert a + b == b;
    } else {
      assert (a + b)[1..] == a[1..] + b;
      VisibleConcat(a[1..], b, space);
    }
  }

  lemma {:induction false} VisibleTrimLeft(s: Text, space: nat -> bool)
    ensures Visible(TrimLeft(s, space), space) == Visible(s, space)
  {
    if s != [] && space(s[0]) { VisibleTrimLeft(s[1..], space); }
  }

  lemma {:induction false} VisibleTrimRight(s: Text, space: nat -> bool)
    ensures Visible(TrimRight(s, space), space) == Visible(s, space)
  {
    if s != [] && space(s[|s| - 1]) {
      VisibleTrimRight(s[..|s| - 1], space);
      assert s == s[..|s| - 1] + [s[|s| - 1]];
      VisibleConcat(s[..|s| - 1], [s[|s| - 1]], space);
    }
  }

  lemma {:induction false} VisibleTrim(s: Text, space: nat -> bool)
    ensures Visible(Trim(s, space), space) == Visible(s, space)
  {
    VisibleTrimLeft(s, space);
    VisibleTrimRight(TrimLeft(s, space), space);
  }

  /** lastIndexOf(" ", from): the last space at or before `from`, or -1. */
  function LastSpace(s: Text, from: nat): (i: int)
    ensures -1 <= i <= from && i < |s|
    ensures i >= 0 ==> s[i] == SPACE
    ensures forall k :: i < k <= from && 0 <= k < |s| ==> s[k] != SPACE
  {
    if from < |s| && s[from] == SPACE then from
    else if from == 0 then -1
    else LastSpace(s, from - 1)
  }

  /** The length of the leading run of characters that are not white space. */
  function WordLength(s: Text, space: nat -> bool): (n: nat)
    ensures n <= |s| && (forall i :: 0 <= i < n ==> !space(s[i]))
    ensures n < |s| ==> space(s[n])
  {
    if s == [] || space(s[0]) then 0 else 1 + WordLength(s[1..], space)
  }

  /** The maximal runs of characters that are not white space: Python's
      split() and Go's strings.Fields. */
  function Words(s: Text, space: nat -> bool): seq<Text>
    decreases |s|
  {
    if s == [] then []
    else if space(s[0]) then Words(s[1..], space)
    else
      var n := WordLength(s, space);
      [s[..n]] + Words(s[n..], space)
  }

  ghost predicate IsWord(w: Text, space: nat -> bool) {
    w != [] && forall i :: 0 <= i < |w| ==> !space(w[i])
  }

  lemma {:induction false} WordsAreWords(s: Text, space: nat -> bool)
    ensures forall w :: w in Words(s, space) ==> IsWord(w, space)
    decreases |s|
  {
    if s != [] {
      if space(s[0]) { WordsAreWords(s[1..], space); }
      else { WordsAreWords(s[WordLength(s, space)..], space); }
    }
  }

  function Join(parts: seq<Text>, separator: Text): Text {
    if parts == [] then []
    else if |parts| == 1 then parts[0]
    else parts[0] + separator + Join(parts[1..], separator)
  }

  lemma JoinFirst(first: Text, rest: seq<Text>, separator: Text)
    ensures Join([first] + rest, separator)
         == if rest == [] then first else first + separator + Join(rest, separator)
    ensures Join([], separator) == []
  {
    assert ([first] + rest)[1..] == rest;
  }

  /** Collapses every run of white space to one space and drops it at the ends. */
  function Squash(s: Text, space: nat -> bool): Text {
    Join(Words(s, space), [SPACE])
  }

  /** White space occurs only as single spaces between other characters. */
  ghost predicate Squashed(s: Text, space: nat -> bool) {
    && (forall i :: 0 <= i < |s| && space(s[i]) ==> s[i] == SPACE && 0 < i < |s| - 1)
    && (forall i, j :: 0 <= i < j < |s| && space(s[i]) && space(s[j]) ==> j != i + 1)
  }

  lemma WordsStep(s: Text, space: nat -> bool)
    requires s != [] && !space(s[0])
    ensures var n := WordLength(s, space);
      Words(s, space) == if n == |s| then [s] else [s[..n]] + Words(s[n + 1..], space)
  {
    var n := WordLength(s, space);
    if n == |s| {
      assert s[..n] == s && s[n..] == [];
    } else {
      assert space(s[n..][0]) && s[n..][1..] == s[n + 1..];
    }
  }

  /** A text that starts with a word and goes on after one space. */
  lemma SquashStep(s: Text, space: nat -> bool)
    requires s != [] && !space(s[0])
    ensures var n := WordLength(s, space);
      && (n == |s| ==> Squash(s, space) == s)
      && (n < |s| && Squash(s[n + 1..], space) != [] ==>
          Squash(s, space) == s[..n] + [SPACE] + Squash(s[n + 1..], space))
  {
    hide Words, WordLength, Join;
    WordsStep(s, space);
    var n := WordLength(s, space);
    if n < |s| {
      JoinFirst(s[..n], Words(s[n + 1..], space), [SPACE]);
    } else {
      JoinFirst(s, [], [SPACE]);
      assert [s] + [] == [s];
    }
  }

  lemma SuffixSquashed(s: Text, n: nat, space: nat -> bool)
    requires Squashed(s, space) && n < |s| && space(s[n])
    ensures Squashed(s[n + 1..], space) && s[n + 1..] != []
  {
    var rest := s[n + 1..];
    forall i | 0 <= i < |rest| && space(rest[i]) ensures rest[i] == SPACE && 0 < i < |rest| - 1 {
      assert rest[i] == s[n + 1 + i] && space(s[n]);
    }
    forall i, j | 0 <= i < j < |rest| && space(rest[i]) && space(rest[j]) ensures j != i + 1 {
      assert rest[i] == s[n + 1 + i] && rest[j] == s[n + 1 + j];
    }
  }

  lemma SquashedSpace(s: Text, i: nat, space: nat -> bool)
    requires Squashed(s, space) && i < |s| && space(s[i])
    ensures s[i] == SPACE && i > 0
  {
  }

  lemma SplitAtSpace(s: Text, n: nat)
    requires n < |s| && s[n] == SPACE
    ensures s == s[..n] + [SPACE] + s[n + 1..]
  {
  }

  lemma SquashedParts(s: Text, space: nat -> bool)
    requires Squashed(s, space) && s != []
    ensures !space(s[0])
    ensures var n := WordLength(s, space);
      n < |s| ==> s == s[..n] + [SPACE] + s[n + 1..] && Squashed(s[n + 1..], space) && s[n + 1..] != []
  {
    hide Squashed, WordLength;
    if space(s[0]) { SquashedSpace(s, 0, space); }
    var n := WordLength(s, space);
    if n < |s| {
      SquashedSpace(s, n, space);
      SplitAtSpace(s, n);
      SuffixSquashed(s, n, space);
    }
  }

  lemma {:induction false} SquashFixes(s: Text, space: nat -> bool)
    requires Squashed(s, space)
    ensures Squash(s, space) == s
    decreases |s|
  {
    if s != [] {
      hide Squash, Squashed, WordLength;
      SquashedParts(s, space);
      SquashStep(s, space);
      var n := WordLength(s, space);
      if n < |s| { SquashFixes(s[n + 1..], space); }
    }
  }

  lemma {:induction false} JoinIsSquashed(words: seq<Text>, space: nat -> bool)
    requires space(SPACE)
    requires forall w :: w in words ==> IsWord(w, space)
    ensures Squashed(Join(words, [SPACE]), space)
    ensures words != [] ==> Join(words, [SPACE]) != [] && !space(Join(words, [SPACE])[0])
  {
    if words != [] { assert IsWord(words[0], space); }
    if |words| > 1 {
      var rest := Join(words[1..], [SPACE]);
      JoinIsSquashed(words[1..], space);
      var w := words[0];
      var s := w + [SPACE] + rest;
      forall i | 0 <= i < |s| && space(s[i]) ensures s[i] == SPACE && 0 < i < |s| - 1 {
        if i > |w| { assert s[i] == rest[i - |w| - 1]; }
      }
      forall i, j | 0 <= i < j < |s| && space(s[i]) && space(s[j]) ensures j != i + 1 {
        assert s[j] == rest[j - |w| - 1];
        if i > |w| { assert s[i] == rest[i - |w| - 1]; }
      }
    }
  }

  /** Collapsing white space is idempotent. */
  lemma {:induction false} WordsComeFrom(s: Text, space: nat -> bool)
    ensures forall w, c :: w in Words(s, space) && c in w ==> c in s
    decreases |s|
  {
    if s != [] {
      if space(s[0]) {
        WordsComeFrom(s[1..], space);
      } else {
        WordsComeFrom(s[WordLength(s, space)..], space);
      }
    }
  }

  lemma {:induction false} JoinComesFrom(parts: seq<Text>, separator: Text)
    ensures forall c :: c in Join(parts, separator) ==> c in separator || exists w :: w in parts && c in w
  {
    if |parts| > 1 {
      var rest := parts[1..];
      JoinComesFrom(rest, separator);
      assert parts == [parts[0]] + rest;
      forall c | c in Join(parts, separator) ensures c in separator || exists w :: w in parts && c in w {
        if c in parts[0] {
          assert parts[0] in parts;
        } else if c !in separator {
          var w :| w in rest && c in w;
          assert w in parts;
        }
      }
    } else if |parts| == 1 {
      assert parts[0] in parts;
    }
  }

  /** Squashing brings in no characters but spaces. */
  lemma SquashComesFrom(s: Text, space: nat -> bool)
    ensures forall c :: c in Squash(s, space) ==> c == SPACE || c in s
  {
    WordsComeFrom(s, space);
    JoinComesFrom(Words(s, space), [SPACE]);
  }

  lemma SquashIdempotent(s: Text, space: nat -> bool)
    requires space(SPACE)
    ensures Squashed(Squash(s, space), space)
    ensures Squash(Squash(s, space), space) == Squash(s, space)
  {
    WordsAreWords(s, space);
    JoinIsSquashed(Words(s, space), space);
    SquashFixes(Squash(s, space), space);
  }

  /** A squashed text has nothing to trim. */
  lemma SquashedIsTrimmed(s: Text, space: nat -> bool)
    requires Squashed(s, space)
    ensures Trim(s, space) == s
  {
    TrimTrims(s, space);
  }

  /** Every part together with the separators between the parts. */
  lemma {:induction false} JoinSnoc(parts: seq<Text>, last: Text, separator: Text)
    ensures Join(parts + [last], separator)
         == if parts == [] then last else Join(parts, separator) + separator + last
  {
    if parts != [] {
      assert (parts + [last])[1..] == parts[1..] + [last];
      JoinSnoc(parts[1..], last, separator);
    }
  }

  // ---------- the browser's trim and visible characters ----------

  function JsTrim(s: Text): (r: Text)
    ensures |r| <= |s|
  {
    Trim(s, JsSpace)
  }

  function JsVisible(s: Text): Text { Visible(s, JsSpace) }

  ghost predicate JsTrimmed(s: Text) { Trimmed(s, JsSpace) }

  lemma JsTrimFacts(s: Text)
    ensures JsTrimmed(JsTrim(s))
    ensures JsVisible(JsTrim(s)) == JsVisible(s)
    ensures JsTrimmed(s) ==> JsTrim(s) == s
    ensures s != [] && !JsSpace(s[0]) ==> JsTrim(s) != []
    ensures s != [] && !JsSpace(s[|s| - 1]) ==> JsTrim(s) != []
  {
    TrimTrims(s, JsSpace);
    VisibleTrim(s, JsSpace);
  }

  lemma JsVisibleConcat(a: Text, b: Text)
    ensures JsVisible(a + b) == JsVisible(a) + JsVisible(b)
    ensures JsVisible([]) == [] && JsVisible([SPACE]) == []
  {
    VisibleConcat(a, b, JsSpace);
    assert [SPACE][1..] == [] && JsSpace(SPACE);
  }

  // ---------- lexicographic order ----------

  predicate Less(a: Text, b: Text) {
    b != [] && (a == [] || a[0] < b[0] || (a[0] == b[0] && Less(a[1..], b[1..])))
  }

  lemma {:induction false} LessIsIrreflexive(a: Text)
    ensures !Less(a, a)
  {
    if a != [] { LessIsIrreflexive(a[1..]); }
  }

  lemma {:induction false} LessIsTotal(a: Text, b: Text)
    ensures Less(a, b) || a == b || Less(b, a)
    ensures !(Less(a, b) && Less(b, a)) && !Less(a, a)
  {
    if a != [] && b != [] && a[0] == b[0] {
      LessIsTotal(a[1..], b[1..]);
      assert a == [a[0]] + a[1..] && b == [b[0]] + b[1..];
    }
    if a != [] { LessIsIrreflexive(a); }
  }

  lemma {:induction false} LessIsTransitive(a: Text, b: Text, c: Text)
    requires Less(a, b) && Less(b, c)
    ensures Less(a, c)
  {
    if a != [] && a[0] == b[0] == c[0] { LessIsTransitive(a[1..], b[1..], c[1..]); }
  }

  /** a is a proper front part of b, or smaller where they first differ. */
  ghost predicate FirstDifference(a: Text, b: Text, n: nat) {
    n <= |a| && n < |b| && a[..n] == b[..n] && (n < |a| ==> a[n] < b[n])
  }

  lemma SameStart(a: Text, b: Text, n: nat)
    requires FirstDifference(a, b, n)
    ensures n > 0 ==> a[0] == b[0]
  {
    if n > 0 { assert a[0] == a[..n][0] && b[0] == b[..n][0]; }
  }

  lemma {:induction false} LessIsFirstDifference(a: Text, b: Text)
    ensures Less(a, b) <==> exists n: nat :: FirstDifference(a, b, n)
  {
    if b != [] && a != [] && a[0] == b[0] {
      LessIsFirstDifference(a[1..], b[1..]);
      if Less(a, b) {
        var n: nat :| FirstDifference(a[1..], b[1..], n);
        assert a[..n + 1] == [a[0]] + a[1..][..n] && b[..n + 1] == [b[0]] + b[1..][..n];
        assert FirstDifference(a, b, n + 1);
      }
      if n: nat :| FirstDifference(a, b, n) {
        assert a[..n][1..] == a[1..][..n - 1] && b[..n][1..] == b[1..][..n - 1];
        assert FirstDifference(a[1..], b[1..], n - 1);
      }
    } else if Less(a, b) {
      assert FirstDifference(a, b, 0);
    } else {
      forall n: nat | FirstDifference(a, b, n) ensures n == 0 { SameStart(a, b, n); }
    }
  }

  // ---------- sizes and wrappers ----------

  function CodePointSize(c: nat): (n: nat)
    ensures 1 <= n <= 4
  {
    if c < 0x80 then 1 else if c < 0x800 then 2 else if c < 0x1_0000 then 3 else 4
  }

  /** The length of a sequence of code points in bytes (UTF-8). */
  function Utf8Size(s: Text): nat { if s == [] then 0 else CodePointSize(s[0]) + Utf8Size(s[1..]) }

  lemma {:induction false} Utf8SizeConcat(a: Text, b: Text)
    ensures Utf8Size(a + b) == Utf8Size(a) + Utf8Size(b)
  {
    if a == [] {
      assert a + b == b;
    } else {
      assert (a + b)[1..] == a[1..] + b;
      Utf8SizeConcat(a[1..], b);
    }
  }

  /** strings.TrimSpace */
  function GoTrim(s: Text): Text { Trim(s, GoSpace) }

  /** strings.Join(strings.Fields(s), " ") */
  function GoSquash(s: Text): Text { Squash(s, GoSpace) }

  // ---------- SQLite's COLLATE NOCASE ----------

  /** ASCII letters compare without case. */
  function FoldChar(c: nat): nat { if 0x41 <= c <= 0x5A then c + 0x20 else c }

  function Zeros(n: nat): Text { seq(n, i => 0) }

  /** What NOCASE compares: the folded text up to the first character 0, and of
      the rest only its length in bytes. */
  function Fold(s: Text): Text {
    if s == [] then []
    else if s[0] == 0 then Zeros(Utf8Size(s))
    else [FoldChar(s[0])] + Fold(s[1..])
  }

  function BeforeNul(s: Text): Text { if s == [] || s[0] == 0 then [] else [s[0]] + BeforeNul(s[1..]) }

  ghost predicate SameIgnoringCase(s: Text, t: Text) {
    |s| == |t| && forall i :: 0 <= i < |s| ==> FoldChar(s[i]) == FoldChar(t[i])
  }

  /** Characters are the same if they are equal, or the two cases of a letter from A to Z. */
  lemma SameCharacter(c: nat, d: nat)
    ensures FoldChar(c) == FoldChar(d) <==>
      || c == d
      || ('A' as nat <= c <= 'Z' as nat && d == c + 32)
      || ('A' as nat <= d <= 'Z' as nat && c == d + 32)
  {
  }

  lemma {:induction false} WithoutNul(s: Text)
    requires 0 !in s
    ensures BeforeNul(s) == s
  {
    if s != [] { WithoutNul(s[1..]); }
  }

  lemma SameCons(c: nat, s: Text, d: nat, t: Text)
    ensures SameIgnoringCase([c] + s, [d] + t) <==> FoldChar(c) == FoldChar(d) && SameIgnoringCase(s, t)
  {
    hide FoldChar;
    var a, b := [c] + s, [d] + t;
    assert forall i :: 0 <= i < |s| ==> s[i] == a[i + 1];
    assert forall i :: 0 <= i < |t| ==> t[i] == b[i + 1];
    if SameIgnoringCase(a, b) { assert FoldChar(a[0]) == FoldChar(b[0]); }
  }

  lemma SameNothing()
    ensures SameIgnoringCase([], [])
  {
  }

  lemma SameLength(s: Text, t: Text)
    ensures SameIgnoringCase(s, t) ==> |s| == |t|
  {
  }

  lemma FoldCons(s: Text)
    requires s != [] && s[0] != 0
    ensures Fold(s) != [] && Fold(s)[0] == FoldChar(s[0]) && Fold(s)[1..] == Fold(s[1..])
    ensures BeforeNul(s) == [s[0]] + BeforeNul(s[1..]) && (0 in s <==> 0 in s[1..])
    ensures Utf8Size(s) == CodePointSize(s[0]) + Utf8Size(s[1..])
  {
  }

  lemma FoldFront(s: Text)
    ensures Fold(s) == [] <==> s == []
    ensures s != [] ==> (Fold(s)[0] == 0 <==> s[0] == 0) && (BeforeNul(s) == [] <==> s[0] == 0)
    ensures s != [] && s[0] == 0 ==> |Fold(s)| == Utf8Size(s) && Fold(s) == Zeros(Utf8Size(s)) && 0 in s
  {
  }

  /** Two texts are the same to NOCASE. */
  lemma {:induction false} FoldEqual(s: Text, t: Text)
    ensures Fold(s) == Fold(t) <==>
      && SameIgnoringCase(BeforeNul(s), BeforeNul(t))
      && (0 in s <==> 0 in t) && (0 in s ==> Utf8Size(s) == Utf8Size(t))
  {
    hide SameIgnoringCase;
    SameNothing();
    if s != [] && t != [] && s[0] != 0 && t[0] != 0 {
      FoldEqual(s[1..], t[1..]);
      SameCons(s[0], BeforeNul(s[1..]), t[0], BeforeNul(t[1..]));
      FoldCons(s);
      FoldCons(t);
    } else {
      FoldFront(s);
      FoldFront(t);
      SameLength(BeforeNul(s), BeforeNul(t));
    }
  }

  // ---------- cutting at spaces ----------

  /** A cut between two places: at the last space there, or else at the second place. */
  ghost predicate CutsAtSpace(s: Text, from: nat, to: nat, cut: nat) {
    && from <= cut <= to <= |s|
    && if exists i :: from <= i <= to && i < |s| && s[i] == ' ' as nat
       then cut < |s| && s[cut] == ' ' as nat && forall i :: cut < i <= to && i < |s| ==> s[i] != ' ' as nat
       else cut == to
  }

  lemma LastSpaceCuts(s: Text, at: nat, least: nat, most: nat)
    requires least <= most && at + most <= |s|
    ensures var cut := LastSpace(s[at..], most);
      CutsAtSpace(s, at + least, at + most, at + if cut < least then most else cut)
  {
    var rest := s[at..];
    var cut := LastSpace(rest, most);
    forall i | at + least <= i <= at + most && i < |s| && s[i] == ' ' as nat ensures i - at <= cut {
      assert rest[i - at] == SPACE;
    }
    if cut >= least { assert rest[cut] == s[at + cut]; }
    forall i | at + cut < i <= at + most && i < |s| && i >= at ensures s[i] != ' ' as nat {
      assert rest[i - at] == s[i];
    }
  }

  /** Where the text goes on after white space. */
  ghost predicate IsNext(s: Text, cut: nat, next: nat) {
    && cut <= next <= |s|
    && (forall i :: cut <= i < next ==> JsSpace(s[i]))
    && (next < |s| ==> !JsSpace(s[next]))
  }

  lemma SpaceFirst(s: Text, i: nat)
    requires i + 1 < |s| && JsSpace(s[i])
    ensures JsTrim(s[i..]) == JsTrim(s[i + 1..])
  {
    hide TrimLeft, TrimRight;
    assert s[i..][1..] == s[i + 1..];
    TrimLeftFirst(s[i..], JsSpace);
  }

  lemma AlreadyTrimmed(s: Text, next: nat)
    requires next < |s| && !JsSpace(s[next]) && !JsSpace(s[|s| - 1])
    ensures JsTrim(s[next..]) == s[next..]
  {
    hide JsSpace, JsTrim;
    JsTrimFacts(s[next..]);
  }

  lemma NextIsLater(s: Text, cut: nat, next: nat)
    requires IsNext(s, cut, next)
    ensures cut <= next <= |s|
  {
  }

  /** Trimming a text that ends visibly only moves its start. */
  lemma TrimmedRest(s: Text, cut: nat) returns (next: nat)
    requires cut < |s| && !JsSpace(s[|s| - 1])
    ensures IsNext(s, cut, next) && next < |s| && JsTrim(s[cut..]) == s[next..]
  {
    hide JsTrim, JsSpace;
    next := cut;
    while JsSpace(s[next])
      invariant cut <= next < |s|
      invariant forall i :: cut <= i < next ==> JsSpace(s[i])
      invariant JsTrim(s[cut..]) == JsTrim(s[next..])
      decreases |s| - next
    {
      SpaceFirst(s, next);
      next := next + 1;
    }
    AlreadyTrimmed(s, next);
  }
}
