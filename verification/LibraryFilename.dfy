/** Choosing an unused file name in the library directory
    (server/admin_libgen.go, uniqueLibraryFilename). What os.Lstat answers for a
    name is a parameter; the name counts as unused only when the answer is that
    it does not exist. */
module LibraryFilename {
  import opened Outcomes
  import opened Text
  import D = Decimal

  datatype Answer = Exists | NotExist | OtherError

  const SLASH: nat := 0x2F
  const DOT: nat := 0x2E

  // ---------- path/filepath on Unix ----------

  function WithoutTrailingSlashes(path: Text): (r: Text)
    ensures r != [] ==> r[|r| - 1] != SLASH
  {
    if path != [] && path[|path| - 1] == SLASH then WithoutTrailingSlashes(path[..|path| - 1]) else path
  }

  function AfterLastSlash(path: Text): (r: Text)
    ensures SLASH !in r
    ensures path != [] && path[|path| - 1] != SLASH ==> r != []
  {
    if path == [] || path[|path| - 1] == SLASH then []
    else AfterLastSlash(path[..|path| - 1]) + [path[|path| - 1]]
  }

  function Base(path: Text): (r: Text)
    ensures r != []
  {
    if path == [] then [DOT]
    else
      var name := AfterLastSlash(WithoutTrailingSlashes(path));
      if name == [] then [SLASH] else name
  }

  predicate Stops(c: nat) { c == DOT || c == SLASH }

  /** One past the last dot or slash. */
  function LastStop(path: Text, n: nat): (k: nat)
    requires n <= |path|
    ensures k <= n && (k == 0 || Stops(path[k - 1]))
    ensures forall i :: k <= i < n ==> !Stops(path[i])
  {
    if n == 0 || Stops(path[n - 1]) then n else LastStop(path, n - 1)
  }

  /** The extension: from the last dot after the last slash. */
  function Ext(path: Text): (r: Text)
    ensures |r| <= |path| && r == path[|path| - |r|..]
  {
    var k := LastStop(path, |path|);
    if k > 0 && path[k - 1] == DOT then path[k - 1..] else []
  }

  // ---------- the candidates ----------

  function TrimDot(name: Text): Text { if name != [] && name[0] == DOT then name[1..] else name }

  function Clean(raw: Text): Text { GoTrim(TrimDot(Base(raw))) }

  predicate Unusable(name: Text) { name == [] || name == [DOT] || name == [DOT, DOT] }

  function Stem(name: Text): Text { name[..|name| - |Ext(name)|] }

  function Suffix(n: nat): Text { [0x20, 0x28] + D.Print(n) + [0x29] }

  /** The name itself, and then the name with a number from 2 on. */
  function Candidate(name: Text, n: nat): Text {
    if n <= 1 then name else Stem(name) + Suffix(n) + Ext(name)
  }

  lemma StemAndExt(name: Text)
    ensures Stem(name) + Ext(name) == name
  {
  }

  lemma NoStops(ext: Text)
    requires '.' as nat !in ext && '/' as nat !in ext
    ensures forall i :: 0 <= i < |ext| ==> !Stops(ext[i])
  {
  }

  lemma StopFacts()
    ensures Stops(DOT)
  {
  }

  lemma LastStopIs(path: Text, k: nat)
    requires k <= |path| && (k == 0 || Stops(path[k - 1])) && forall i :: k <= i < |path| ==> !Stops(path[i])
    ensures LastStop(path, |path|) == k
  {
    hide Stops;
  }

  lemma ExtensionOf(stem: Text, ext: Text)
    requires '.' as nat !in ext && '/' as nat !in ext
    ensures var name := stem + ['.' as nat] + ext; Stem(name) == stem && Ext(name) == ['.' as nat] + ext
    ensures Stem(ext) == ext && Ext(ext) == []
  {
    hide Stops, LastStop;
    StopFacts();
    NoStops(ext);
    var name := stem + ['.' as nat] + ext;
    assert name[|stem|] == DOT && forall i :: |stem| < i < |name| ==> name[i] == ext[i - |stem| - 1];
    LastStopIs(name, |stem| + 1);
    assert name[|stem|..] == ['.' as nat] + ext && name[..|stem|] == stem;
    LastStopIs(ext, 0);
    assert ext[..|ext|] == ext;
  }

  /** The number goes between the stem and the part from the last dot on. */
  lemma NumberBeforeExtension(stem: Text, ext: Text, n: nat)
    requires n >= 2 && '.' as nat !in ext && '/' as nat !in ext
    ensures Candidate(stem + ['.' as nat] + ext, n)
         == stem + [' ' as nat, '(' as nat] + D.Print(n) + [')' as nat] + ['.' as nat] + ext
    ensures Candidate(ext, n) == ext + [' ' as nat, '(' as nat] + D.Print(n) + [')' as nat]
  {
    hide D.Print, Ext, Stem;
    ExtensionOf(stem, ext);
  }

  lemma {:induction false} AfterLastSlashOf(directory: Text, base: Text)
    requires SLASH !in base && (directory == [] || directory[|directory| - 1] == SLASH)
    ensures AfterLastSlash(directory + base) == base
  {
    if base == [] {
      assert directory + base == directory;
    } else {
      var front, last := base[..|base| - 1], base[|base| - 1];
      assert (directory + base)[..|directory + base| - 1] == directory + front;
      AfterLastSlashOf(directory, front);
      assert base == front + [last];
    }
  }

  /** Of a path only the part after the last slash counts, without one leading dot and white space around it. */
  lemma CleanOf(directory: Text, base: Text)
    requires base != [] && SLASH !in base && (directory == [] || directory[|directory| - 1] == '/' as nat)
    ensures Clean(directory + base) == GoTrim(if base[0] == '.' as nat then base[1..] else base)
  {
    hide GoTrim;
    var path := directory + base;
    assert path[|path| - 1] == base[|base| - 1];
    AfterLastSlashOf(directory, base);
  }

  lemma CandidatesDiffer(name: Text, m: nat, n: nat)
    requires 1 <= m < n
    ensures Candidate(name, m) != Candidate(name, n)
  {
    hide Ext;
    StemAndExt(name);
    D.ValueOfPrint(n);
    if m > 1 && Candidate(name, m) == Candidate(name, n) {
      var c, d := Candidate(name, m), Candidate(name, n);
      var k := |Stem(name)|;
      assert c[k..|c| - |Ext(name)|] == Suffix(m) && d[k..|d| - |Ext(name)|] == Suffix(n);
      assert Suffix(m)[2..|Suffix(m)| - 1] == D.Print(m) && Suffix(n)[2..|Suffix(n)| - 1] == D.Print(n);
      D.PrintInjective(m, n);
    }
  }

  lemma SuffixDoesNotStop(n: nat)
    ensures forall i :: 0 <= i < |Suffix(n)| ==> !Stops(Suffix(n)[i])
  {
    D.ValueOfPrint(n);
  }

  lemma InsertedBeforeExtension(name: Text, middle: Text)
    requires (forall i :: 0 <= i < |middle| ==> !Stops(middle[i])) && Ext(name) != []
    ensures Ext(Stem(name) + middle + Ext(name)) == Ext(name)
  {
    hide Stops;
    var stem, ext := Stem(name), Ext(name);
    var c := stem + middle + ext;
    var dot, k := |c| - |ext|, LastStop(name, |name|);
    StopFacts();
    assert forall i :: dot <= i < |c| ==> c[i] == name[i - |c| + |name|];
    assert c[dot] == name[k - 1] == DOT;
    LastStopIs(c, dot + 1);
    assert c[dot..] == ext;
  }

  lemma AppendedToStem(name: Text, middle: Text)
    requires (forall i :: 0 <= i < |middle| ==> !Stops(middle[i])) && Ext(name) == []
    ensures Ext(name + middle) == []
  {
    hide Stops;
    var c, k := name + middle, LastStop(name, |name|);
    assert forall i :: 0 <= i < |name| ==> c[i] == name[i];
    assert forall i :: |name| <= i < |c| ==> c[i] == middle[i - |name|];
    LastStopIs(c, k);
  }

  /** Inserting text without dots and slashes before the extension leaves it alone. */
  lemma ExtAfterInsert(name: Text, middle: Text)
    requires forall i :: 0 <= i < |middle| ==> !Stops(middle[i])
    ensures Ext(Stem(name) + middle + Ext(name)) == Ext(name)
  {
    if Ext(name) != [] {
      hide Stops, Ext, Stem;
      InsertedBeforeExtension(name, middle);
    } else {
      assert Stem(name) + middle + Ext(name) == name + middle;
      hide Stops, Ext, Stem;
      AppendedToStem(name, middle);
    }
  }

  /** A number does not change the extension. */
  lemma ExtensionKept(name: Text, n: nat)
    ensures Ext(Candidate(name, n)) == Ext(name)
  {
    hide Ext, Stem, Suffix, Stops;
    SuffixDoesNotStop(n);
    ExtAfterInsert(name, Suffix(n));
  }

  // ---------- the search ----------

  predicate Free(name: Text, n: nat, lstat: Text -> Answer) { lstat(Candidate(name, n)) == NotExist }

  /** The search ends: the name is refused or some candidate does not exist. */
  ghost predicate Ends(raw: Text, lstat: Text -> Answer) {
    Unusable(Clean(raw)) || exists n: nat :: n >= 1 && Free(Clean(raw), n, lstat)
  }

  /** `n` is the first candidate that does not exist. */
  ghost predicate FirstFree(name: Text, n: nat, lstat: Text -> Answer) {
    n >= 1 && Free(name, n, lstat) && forall m :: 1 <= m < n ==> !Free(name, m, lstat)
  }

  /** The search, watched for at most `tries` calls of Lstat; None while it is
      still looking. */
  method UniqueLibraryFilename(raw: Text, lstat: Text -> Answer, tries: nat) returns (r: Option<Text>)
    ensures Unusable(Clean(raw)) ==> r == Some([])
    ensures !Unusable(Clean(raw)) ==>
      (r.Some? <==> exists n: nat :: n <= tries && FirstFree(Clean(raw), n, lstat))
    ensures !Unusable(Clean(raw)) && r.Some? ==>
      exists n: nat :: FirstFree(Clean(raw), n, lstat) && r.value == Candidate(Clean(raw), n)
  {
    hide Clean, Stem, Ext;
    var name := Clean(raw);
    if Unusable(name) { return Some([]); }
    if tries == 0 { return None; }
    if lstat(name) == NotExist {
      assert FirstFree(name, 1, lstat);
      return Some(name);
    }
    assert !Free(name, 1, lstat);
    var ext := Ext(name);
    var stem := Stem(name);
    var n: nat := 2;
    while n <= tries
      invariant 2 <= n <= tries + 1 && forall m :: 1 <= m < n ==> !Free(name, m, lstat)
    {
      var candidate := stem + ([0x20, 0x28] + D.Print(n) + [0x29]) + ext;
      assert candidate == Candidate(name, n);
      if lstat(candidate) == NotExist {
        assert FirstFree(name, n, lstat);
        return Some(candidate);
      }
      assert !Free(name, n, lstat);
      n := n + 1;
    }
    return None;
  }

  /** Among more candidates than taken names, one is free. */
  lemma {:induction false} Pigeonhole(name: Text, taken: set<Text>, n: nat)
    requires n >= 1 && forall m :: 1 <= m <= n ==> Candidate(name, m) in taken
    ensures |taken| >= n
  {
    hide Candidate;
    if n > 1 {
      var rest := taken - {Candidate(name, n)};
      forall m | 1 <= m <= n - 1 ensures Candidate(name, m) in rest { CandidatesDiffer(name, m, n); }
      Pigeonhole(name, rest, n - 1);
    } else {
      assert Candidate(name, 1) in taken;
      assert |taken - {Candidate(name, 1)}| == |taken| - 1;
    }
  }

  /** In a finite directory the search ends after at most one name more than
      there are entries, if Lstat reports every other candidate it meets as not existing. */
  lemma EndsWithinDirectory(raw: Text, directory: set<Text>, lstat: Text -> Answer) returns (n: nat)
    requires !Unusable(Clean(raw))
    requires forall m :: 1 <= m <= |directory| + 1 && Candidate(Clean(raw), m) !in directory ==>
      Free(Clean(raw), m, lstat)
    ensures Ends(raw, lstat) && FirstFree(Clean(raw), n, lstat) && n <= |directory| + 1
  {
    hide Clean, Candidate, Unusable, Free;
    var name := Clean(raw);
    n := 1;
    while !Free(name, n, lstat)
      invariant 1 <= n <= |directory| + 1 && forall m :: 1 <= m < n ==> !Free(name, m, lstat)
      decreases |directory| + 1 - n
    {
      if n == |directory| + 1 { Pigeonhole(name, directory, n); }
      n := n + 1;
    }
  }

  // ---------- names that are too long ----------

  lemma {:induction false} DigitsSize(s: Text)
    requires D.AllDigits(s)
    ensures Utf8Size(s) == |s|
  {
    if s != [] { DigitsSize(s[1..]); }
  }

  lemma CandidateSize(name: Text, n: nat)
    requires n > 1
    ensures Utf8Size(Candidate(name, n)) == Utf8Size(name) + 3 + |D.Print(n)|
  {
    hide Ext;
    var stem, ext, digits := Stem(name), Ext(name), D.Print(n);
    StemAndExt(name);
    D.ValueOfPrint(n);
    DigitsSize(digits);
    var opening: Text, closing: Text := [0x20, 0x28], [0x29];
    assert opening[1..] == [0x28] && opening[1..][1..] == [] && closing[1..] == [];
    Utf8SizeConcat(stem, ext);
    Utf8SizeConcat(stem + Suffix(n), ext);
    Utf8SizeConcat(stem, Suffix(n));
    Utf8SizeConcat(opening + digits, closing);
    Utf8SizeConcat(opening, digits);
  }

  lemma FirstCandidate(name: Text)
    ensures Candidate(name, 1) == name
  {
  }

  lemma {:induction false} PrintGrows(m: nat, n: nat)
    requires m <= n
    ensures |D.Print(m)| <= |D.Print(n)|
  {
    if m >= 10 { PrintGrows(m / 10, n / 10); }
  }

  /** Later candidates are no shorter. */
  lemma CandidatesGrow(name: Text, m: nat, n: nat)
    requires 1 <= m <= n
    ensures Utf8Size(Candidate(name, m)) <= Utf8Size(Candidate(name, n))
  {
    hide Candidate, Utf8Size, D.Print;
    FirstCandidate(name);
    if m > 1 {
      CandidateSize(name, m);
      PrintGrows(m, n);
    }
    if n > 1 { CandidateSize(name, n); }
  }

  /** The first candidate that is not in the directory; it is among the first |directory| + 1. */
  lemma FirstUnused(name: Text, directory: set<Text>) returns (k: nat)
    ensures 1 <= k <= |directory| + 1 && Candidate(name, k) !in directory
    ensures forall m :: 1 <= m < k ==> Candidate(name, m) in directory
  {
    hide Candidate;
    k := 1;
    while Candidate(name, k) in directory
      invariant 1 <= k <= |directory| + 1 && forall m :: 1 <= m < k ==> Candidate(name, m) in directory
      decreases |directory| + 1 - k
    {
      if k == |directory| + 1 { Pigeonhole(name, directory, k); }
      k := k + 1;
    }
  }

  // ---------- the result stays inside the directory ----------

  lemma VisibleStays(s: Text)
    requires |s| == 1 && !GoSpace(s[0])
    ensures Trim(s, GoSpace) == s
  {
    hide Trim, GoSpace;
    TrimTrims(s, GoSpace);
  }

  lemma SlashStays()
    ensures Trim(TrimDot([SLASH]), GoSpace) == [SLASH]
  {
    var slash: Text := [SLASH];
    assert TrimDot(slash) == slash && !GoSpace(slash[0]);
    hide TrimDot, Trim, GoSpace;
    VisibleStays(slash);
  }

  lemma TrimDotSubset(s: Text)
    ensures forall c :: c in TrimDot(s) ==> c in s
  {
  }

  lemma TrimSubset(s: Text)
    ensures forall c :: c in Trim(s, GoSpace) ==> c in s
  {
  }

  lemma {:induction false} AllSlashes(path: Text)
    ensures WithoutTrailingSlashes(path) == [] <==> forall i :: 0 <= i < |path| ==> path[i] == SLASH
  {
    if path != [] && path[|path| - 1] == SLASH { AllSlashes(path[..|path| - 1]); }
  }

  lemma BaseSlash(raw: Text)
    ensures Base(raw) == [SLASH] || SLASH !in Base(raw)
    ensures Base(raw) == [SLASH] <==> raw != [] && forall i :: 0 <= i < |raw| ==> raw[i] == SLASH
  {
    AllSlashes(raw);
    var rest := WithoutTrailingSlashes(raw);
    if rest != [] { assert AfterLastSlash(rest) != []; }
  }

  lemma CleanHasNoSlash(raw: Text)
    ensures SLASH in Clean(raw) <==> raw != [] && forall i :: 0 <= i < |raw| ==> raw[i] == SLASH
  {
    hide GoSpace, Base, Trim, TrimDot;
    var base := Base(raw);
    BaseSlash(raw);
    if base == [SLASH] {
      SlashStays();
    } else {
      TrimDotSubset(base);
      TrimSubset(TrimDot(base));
    }
  }

  lemma EmptyIsUnusable()
    ensures Unusable(Clean([]))
  {
    assert TrimDot(Base([])) == [];
    TrimTrims([], GoSpace);
  }

  /** Every candidate is a plain file name, unless the input consists of slashes. */
  lemma PlainName(raw: Text, n: nat)
    requires !Unusable(Clean(raw)) && n >= 1
    ensures !Unusable(Candidate(Clean(raw), n))
    ensures SLASH in Candidate(Clean(raw), n) <==> forall i :: 0 <= i < |raw| ==> raw[i] == SLASH
  {
    hide Clean, Ext;
    var name := Clean(raw);
    CleanHasNoSlash(raw);
    EmptyIsUnusable();
    StemAndExt(name);
    D.ValueOfPrint(n);
    if n > 1 {
      var c := Candidate(name, n);
      assert c[|Stem(name)| + 1] == Suffix(n)[1] == 0x28;
      assert forall x :: x in name <==> x in Stem(name) || x in Ext(name);
      assert forall x :: x in c <==> x in Stem(name) || x in Suffix(n) || x in Ext(name);
    }
  }

  lemma SlashIsClean()
    ensures Clean([SLASH]) == [SLASH]
  {
    var slash: Text := [SLASH];
    hide Base, TrimDot, Trim, GoSpace;
    BaseSlash(slash);
    SlashStays();
  }

  /** For instance: every candidate for a single slash contains one. */
  lemma SlashExample(n: nat)
    requires n >= 1
    ensures !Unusable(Clean([SLASH])) && SLASH in Candidate(Clean([SLASH]), n)
  {
    hide Clean, Candidate;
    SlashIsClean();
    PlainName([SLASH], n);
  }

  // ---------- when the search ends ----------

  predicate IsFileName(name: Text) { !Unusable(name) && SLASH !in name }

  /** What a directory that can be searched answers for a file name, if paths
      leave `limit` bytes for it. No path may hold the character 0. */
  function Lookup(name: Text, directory: set<Text>, limit: nat): Answer {
    if 0 in name || Utf8Size(name) > limit then OtherError else if name in directory then Exists else NotExist
  }

  ghost predicate LimitedNames(directory: set<Text>, limit: nat, lstat: Text -> Answer) {
    forall name :: IsFileName(name) ==> lstat(name) == Lookup(name, directory, limit)
  }

  lemma SameNuls(name: Text, n: nat)
    ensures 0 in Candidate(name, n) <==> 0 in name
  {
    hide Ext;
    StemAndExt(name);
    D.ValueOfPrint(n);
    if n > 1 {
      var c := Candidate(name, n);
      assert forall x :: x in name <==> x in Stem(name) || x in Ext(name);
      assert forall x :: x in c <==> x in Stem(name) || x in Suffix(n) || x in Ext(name);
    }
  }

  lemma SomethingLeft(raw: Text)
    requires !Unusable(Clean(raw))
    ensures raw != []
  {
    EmptyIsUnusable();
  }

  lemma FreeExactly(raw: Text, n: nat, directory: set<Text>, limit: nat, lstat: Text -> Answer)
    requires LimitedNames(directory, limit, lstat) && IsFileName(Clean(raw)) && n >= 1
    ensures var c := Candidate(Clean(raw), n);
      Free(Clean(raw), n, lstat) <==> 0 !in Clean(raw) && Utf8Size(c) <= limit && c !in directory
  {
    hide Clean, Candidate, Unusable, Utf8Size;
    PlainName(raw, n);
    CleanHasNoSlash(raw);
    SameNuls(Clean(raw), n);
    SomethingLeft(raw);
    assert IsFileName(Candidate(Clean(raw), n));
  }

  /** The search ends exactly when the name holds no character 0 and the first
      candidate that is not in the directory is short enough; that one is among
      the first |directory| + 1, so a caller can tell beforehand. */
  lemma EndsExactly(raw: Text, directory: set<Text>, limit: nat, lstat: Text -> Answer) returns (k: nat)
    requires LimitedNames(directory, limit, lstat) && IsFileName(Clean(raw))
    ensures 1 <= k <= |directory| + 1 && Candidate(Clean(raw), k) !in directory
    ensures forall m :: 1 <= m < k ==> Candidate(Clean(raw), m) in directory
    ensures Ends(raw, lstat) <==> 0 !in Clean(raw) && Utf8Size(Candidate(Clean(raw), k)) <= limit
    ensures Ends(raw, lstat) ==> FirstFree(Clean(raw), k, lstat)
  {
    hide Clean, Candidate, Utf8Size, LimitedNames, Free, Unusable;
    var name := Clean(raw);
    k := FirstUnused(name, directory);
    forall n: nat | n >= 1
      ensures Free(name, n, lstat) <==>
        0 !in name && Utf8Size(Candidate(name, n)) <= limit && Candidate(name, n) !in directory
    {
      FreeExactly(raw, n, directory, limit, lstat);
    }
    if Ends(raw, lstat) {
      var n: nat :| n >= 1 && Free(name, n, lstat);
      if n < k {
        assert Candidate(name, n) in directory;
      } else {
        CandidatesGrow(name, k, n);
      }
    }
  }

  /** A name that is itself too long never ends the search, in any directory. */
  lemma TooLongNeverEnds(raw: Text, directory: set<Text>, limit: nat, lstat: Text -> Answer)
    requires LimitedNames(directory, limit, lstat) && IsFileName(Clean(raw)) && Utf8Size(Clean(raw)) > limit
    ensures !Ends(raw, lstat)
  {
    hide Clean, Candidate, IsFileName, Utf8Size, Ends, LimitedNames;
    var k := EndsExactly(raw, directory, limit, lstat);
    FirstCandidate(Clean(raw));
    CandidatesGrow(Clean(raw), 1, k);
  }

  /** A name with room for the number, and without the character 0, always ends it. */
  lemma RoomEnds(raw: Text, directory: set<Text>, limit: nat, lstat: Text -> Answer)
    requires LimitedNames(directory, limit, lstat) && IsFileName(Clean(raw)) && 0 !in Clean(raw)
    requires Utf8Size(Clean(raw)) + 3 + |D.Print(|directory| + 1)| <= limit
    ensures Ends(raw, lstat)
  {
    hide Clean, Candidate, IsFileName, Utf8Size, Ends, LimitedNames, D.Print;
    var k := EndsExactly(raw, directory, limit, lstat);
    FirstCandidate(Clean(raw));
    if k > 1 {
      CandidateSize(Clean(raw), k);
      PrintGrows(k, |directory| + 1);
    }
  }

  /** A name of `n` letters a. */
  function Letters(n: nat): Text { if n == 0 then [] else Letters(n - 1) + [0x61] }

  lemma {:induction false} LettersFacts(n: nat)
    ensures |Letters(n)| == n && Utf8Size(Letters(n)) == n && AfterLastSlash(Letters(n)) == Letters(n)
    ensures forall i :: 0 <= i < n ==> Letters(n)[i] == 0x61
  {
    if n > 0 {
      LettersFacts(n - 1);
      Utf8SizeConcat(Letters(n - 1), [0x61]);
      assert [0x61][1..] == [];
      assert Letters(n)[..n - 1] == Letters(n - 1);
    }
  }

  lemma PlainBase(s: Text)
    requires s != [] && s[|s| - 1] != SLASH && AfterLastSlash(s) == s && s[0] != DOT
    ensures TrimDot(Base(s)) == s
  {
    hide AfterLastSlash;
    assert WithoutTrailingSlashes(s) == s;
  }

  lemma LettersAreClean(n: nat)
    requires n > 2
    ensures Clean(Letters(n)) == Letters(n) && !Unusable(Letters(n))
  {
    hide AfterLastSlash, Letters, Trim, TrimDot, Base, Utf8Size;
    var s := Letters(n);
    LettersFacts(n);
    PlainBase(s);
    TrimTrims(s, GoSpace);
  }

  /** For instance: 256 letters where names have at most 255 bytes, in an empty directory. */
  lemma LongNameExample(limit: nat) returns (raw: Text, lstat: Text -> Answer)
    requires limit == 255
    ensures |raw| == limit + 1 && LimitedNames({}, limit, lstat) && IsFileName(Clean(raw)) && !Ends(raw, lstat)
  {
    raw := Letters(limit + 1);
    lstat := name => Lookup(name, {}, limit);
    LettersFacts(limit + 1);
    LettersAreClean(limit + 1);
    hide Clean, Unusable, Utf8Size, Ends, Letters, Lookup;
    TooLongNeverEnds(raw, {}, limit, lstat);
  }

  lemma LookupIsLimited(directory: set<Text>, limit: nat, lstat: Text -> Answer)
    requires forall name :: lstat(name) == Lookup(name, directory, limit)
    ensures LimitedNames(directory, limit, lstat)
  {
    hide Lookup;
  }

  lemma {:induction false} NoSlash(s: Text)
    requires SLASH !in s
    ensures AfterLastSlash(s) == s
  {
    if s != [] {
      NoSlash(s[..|s| - 1]);
      assert s == s[..|s| - 1] + [s[|s| - 1]];
    }
  }

  lemma NulNameIsClean(raw: Text)
    requires raw == [0x61, 0, 0x62]
    ensures Clean(raw) == raw && IsFileName(raw)
  {
    hide AfterLastSlash, Base, TrimDot, Trim;
    NoSlash(raw);
    PlainBase(raw);
    TrimTrims(raw, GoSpace);
  }

  /** For instance: the letters a and b with a 0 between them, in an empty directory. */
  lemma NulExample(limit: nat) returns (raw: Text, lstat: Text -> Answer)
    ensures |raw| == 3 && LimitedNames({}, limit, lstat) && IsFileName(Clean(raw)) && !Ends(raw, lstat)
  {
    raw := [0x61, 0, 0x62];
    lstat := name => Lookup(name, {}, limit);
    NulNameIsClean(raw);
    hide Clean, Utf8Size, Ends, Lookup, LimitedNames;
    LookupIsLimited({}, limit, lstat);
    var k := EndsExactly(raw, {}, limit, lstat);
    assert raw[1] == 0;
  }
}
