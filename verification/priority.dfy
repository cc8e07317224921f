/** The filename priority classifier. Lower numbers win every conflict.

    The merger, the copier and the scanner each carry the same five-rule
    classifier, modelled once here as `FilePriority`; the fetcher's reverse scan
    carries a four-rule variant, `FetcherPriority`. Every rule is a Python regular
    expression: `re.match` is anchored at the start, `re.search` is not, and
    filenames hold no newline, so `$` is the end of the string. */
module Priority {
  import opened Text

  // ---------------------------------------------------------------------------
  // The regular expressions
  // ---------------------------------------------------------------------------

  /** `\d{8}_\d{6}_` at the start of `s`: the capture-time prefix. */
  predicate TimestampHead(s: string) {
    && |s| >= 16
    && AllDigits(s[..8]) && s[8] == '_'
    && AllDigits(s[9..15]) && s[15] == '_'
  }

  /** `re.match(r'\d{8}_\d{6}_\w+', s)`: the canonical prefix. */
  predicate CanonicalPrefix(s: string) {
    TimestampHead(s) && |s| > 16 && IsWord(s[16])
  }

  /** `\w+\.\w+` spans all of `t`. */
  predicate WordDotWord(t: string) {
    exists d :: 0 < d < |t| - 1 && t[d] == '.' && AllWord(t[..d]) && AllWord(t[d + 1..])
  }

  /** `re.match(r'\d{8}_\d{6}_\w+\.\w+$', s)`: exactly the canonical name. */
  predicate CanonicalExact(s: string) {
    TimestampHead(s) && WordDotWord(s[16..])
  }

  /** `\w+_\d+\.\w+` spans all of `t`. */
  predicate NumberedTail(t: string) {
    exists u, d ::
      && 0 < u < d - 1 && d < |t| - 1
      && t[u] == '_' && t[d] == '.'
      && AllWord(t[..u]) && AllDigits(t[u + 1..d]) && AllWord(t[d + 1..])
  }

  /** `\d{8}_\d{6}_\w+_\d+\.\w+` spans `s` from position `p` to the end. */
  predicate SequencedAt(s: string, p: int)
    requires 0 <= p <= |s|
  {
    TimestampHead(s[p..]) && NumberedTail(s[p + 16..])
  }

  /** `re.match(r'.*\d{8}_\d{6}_\w+_\d+\.\w+$', s)`: a sequence-numbered
      variant of the canonical name, anywhere after an arbitrary head. */
  predicate SequencedVariant(s: string) {
    exists p :: 0 <= p <= |s| && SequencedAt(s, p)
  }

  /** `re.search(r'\(\d+\)\.\w+$', s)`: an OS duplicate suffix such as `(1).jpg`. */
  predicate DuplicateSuffix(s: string) {
    exists a, b ::
      && 0 <= a < b - 1 && b < |s| - 2
      && s[a] == '(' && s[b] == ')' && s[b + 1] == '.'
      && AllDigits(s[a + 1..b]) && AllWord(s[b + 2..])
  }

  // ---------------------------------------------------------------------------
  // The classifiers
  // ---------------------------------------------------------------------------

  /** The five-rule priority of the merger, the copier and the scanner: first
      match wins. */
  function FilePriority(name: string): (r: int)
    ensures 1 <= r <= 5
  {
    if CanonicalExact(name) then 1
    else if CanonicalPrefix(name) then 2
    else if SequencedVariant(name) then 3
    else if !DuplicateSuffix(name) then 4
    else 5
  }

  /** The four-rule priority nested in the fetcher's reverse scan: its first
      rule is the unanchored-end canonical prefix. */
  function FetcherPriority(name: string): (r: int)
    ensures 1 <= r <= 4
  {
    if CanonicalPrefix(name) then 1
    else if SequencedVariant(name) then 2
    else if !DuplicateSuffix(name) then 3
    else 4
  }

  // ---------------------------------------------------------------------------
  // Properties
  // ---------------------------------------------------------------------------

  /** The exact canonical name is a special case of the canonical prefix. */
  lemma ExactHasPrefix(s: string)
    requires CanonicalExact(s)
    ensures CanonicalPrefix(s)
  {
    var d :| 0 < d < |s[16..]| - 1 && s[16..][d] == '.' && AllWord(s[16..][..d]) && AllWord(s[16..][d + 1..]);
    assert s[16..][..d][0] == s[16];
  }

  /** A name opening with 8 digits, `_`, 6 digits, `_` and a word character
      ranks 1 or 2, and ranks 1 exactly when the rest is word characters, one
      dot and word characters to the end. */
  lemma CanonicalPrefixRank(s: string)
    requires CanonicalPrefix(s)
    ensures FilePriority(s) <= 2
    ensures FilePriority(s) == 1 <==> WordDotWord(s[16..])
  {
  }

  /** Without a canonical prefix or a sequence-numbered variant, the rank is 5
      exactly when the name ends in `(digits).ext`, and 4 otherwise. */
  lemma PlainNameRank(s: string)
    requires !CanonicalPrefix(s) && !SequencedVariant(s)
    ensures FilePriority(s) == 5 <==> DuplicateSuffix(s)
    ensures FilePriority(s) == 4 <==> !DuplicateSuffix(s)
  {
    if CanonicalExact(s) {
      ExactHasPrefix(s);
    }
  }

  /** The fetcher's rank is the five-rule rank with its first two classes
      merged: every canonically prefixed name ranks 1 there. */
  lemma FetcherMergesTopClasses(s: string)
    ensures FetcherPriority(s) == if FilePriority(s) <= 2 then 1 else FilePriority(s) - 1
    ensures CanonicalPrefix(s) <==> FetcherPriority(s) == 1
  {
    if CanonicalExact(s) {
      ExactHasPrefix(s);
    }
  }

  /** Every rule but the last two needs an underscore at position 8 of the
      matched part. */
  lemma RanksAboveFourNeedUnderscore(s: string)
    requires '_' !in s
    ensures !CanonicalExact(s) && !CanonicalPrefix(s) && !SequencedVariant(s)
  {
    forall i | 0 <= i < |s| ensures s[i] != '_' {
      assert s[i] in s;
    }
    forall p | 0 <= p <= |s| && |s[p..]| > 8 ensures s[p..][8] != '_' {
      assert s[p..][8] == s[p + 8];
    }
  }

  /** The duplicate suffix needs an opening parenthesis. */
  lemma DuplicateSuffixNeedsParen(s: string)
    requires '(' !in s
    ensures !DuplicateSuffix(s)
  {
    forall i | 0 <= i < |s| ensures s[i] != '(' {
      assert s[i] in s;
    }
  }

  /** Word, dot, word needs a dot. */
  lemma WordDotWordNeedsDot(t: string)
    requires '.' !in t
    ensures !WordDotWord(t)
  {
    forall i | 0 <= i < |t| ensures t[i] != '.' {
      assert t[i] in t;
    }
  }

  /** A word, a dot and a word make the extension-bearing tail. */
  lemma WordDotWordAt(stem: string, ext: string)
    requires |stem| > 0 && |ext| > 0 && AllWord(stem) && AllWord(ext)
    ensures WordDotWord(stem + "." + ext)
  {
    var t := stem + "." + ext;
    assert t[..|stem|] == stem && t[|stem| + 1..] == ext;
  }

  /** A date, `_`, a time and `_` in front of anything make the capture-time
      head, and the rest starts at position 16. */
  lemma StampedName(date: string, time: string, rest: string)
    requires |date| == 8 && |time| == 6 && AllDigits(date) && AllDigits(time)
    ensures TimestampHead(date + "_" + time + "_" + rest)
    ensures (date + "_" + time + "_" + rest)[16..] == rest
  {
    var s := date + "_" + time + "_" + rest;
    assert s[..8] == date;
    assert s[9..15] == time;
  }

  /** The first worked example of the scanner's documentation: the exact
      canonical name ranks 1. */
  lemma CanonicalExample()
    ensures FilePriority("20231009_154612_C1x2Yz3AbC.jpg") == 1
  {
    CanonicalExampleParts();
    CanonicalName("20231009", "154612", "C1x2Yz3AbC", "jpg");
    CanonicalExampleSpelling();
  }

  lemma CanonicalExampleParts()
    ensures AllDigits("20231009") && AllDigits("154612")
    ensures AllWord("C1x2Yz3AbC") && AllWord("jpg")
  {
  }

  lemma CanonicalExampleSpelling()
    ensures "20231009" + "_" + "154612" + "_" + ("C1x2Yz3AbC" + "." + "jpg") == "20231009_154612_C1x2Yz3AbC.jpg"
  {
  }

  /** A date, `_`, a time, `_`, a word, a dot and a word make the exact
      canonical name, which ranks 1. */
  lemma CanonicalName(date: string, time: string, stem: string, ext: string)
    requires |date| == 8 && |time| == 6 && AllDigits(date) && AllDigits(time)
    requires |stem| > 0 && |ext| > 0 && AllWord(stem) && AllWord(ext)
    ensures FilePriority(date + "_" + time + "_" + (stem + "." + ext)) == 1
  {
    StampedName(date, time, stem + "." + ext);
    WordDotWordAt(stem, ext);
  }

  /** The second worked example: the canonical prefix without an extension
      ranks 2. */
  lemma PrefixExample()
    ensures FilePriority("20231009_154612_ABCDEF") == 2
  {
    var name := "20231009_154612_ABCDEF";
    assert name == "20231009" + "_" + "154612" + "_" + "ABCDEF";
    StampedName("20231009", "154612", "ABCDEF");
    WordDotWordNeedsDot(name[16..]);
  }

  /** A canonical name with an OS duplicate suffix still matches the
      canonical prefix, so it ranks 2, not 5. */
  lemma DuplicatedCanonicalExample()
    ensures FilePriority("20230101_120000_ab12 (1).jpg") == 2
  {
    var rest := "ab12 (1).jpg";
    assert AllDigits("20230101") && AllDigits("120000");
    StampedName("20230101", "120000", rest);
    DuplicatedExampleSpelling();
    DuplicatedExampleTail();
    assert rest[0] == 'a';
  }

  lemma DuplicatedExampleSpelling()
    ensures "20230101" + "_" + "120000" + "_" + "ab12 (1).jpg" == "20230101_120000_ab12 (1).jpg"
  {
  }

  /** The space before `(1)` keeps the tail from being word, dot, word. */
  lemma DuplicatedExampleTail()
    ensures !WordDotWord("ab12 (1).jpg")
  {
    var tail := "ab12 (1).jpg";
    forall d | 0 < d < |tail| - 1 && tail[d] == '.' ensures !AllWord(tail[..d]) {
      assert d == 8;
      assert tail[..d][4] == ' ';
    }
  }

  /** An OS duplicate such as `photo (1).jpg` ranks last. */
  lemma DuplicateExample()
    ensures FilePriority("photo (1).jpg") == 5
  {
    var dup := "photo (1).jpg";
    RanksAboveFourNeedUnderscore(dup);
    assert dup[6] == '(' && dup[8] == ')' && dup[9] == '.';
    assert dup[7..8] == "1" && dup[10..] == "jpg";
    assert DuplicateSuffix(dup);
  }

  /** The original `photo.jpg` of that duplicate ranks one better. */
  lemma OriginalExample()
    ensures FilePriority("photo.jpg") == 4
  {
    RanksAboveFourNeedUnderscore("photo.jpg");
    DuplicateSuffixNeedsParen("photo.jpg");
  }
}
