/** Characters, strings and POSIX paths as the Python code sees them.

    Python's regular-expression classes are modelled for ASCII: `\d` is a decimal
    digit `0`-`9`, `\w` a letter, a digit or `_`, `\s` a whitespace character.
    `str.lower()` folds `A`-`Z` only. Paths use `/` as separator. */
module Text {

  predicate IsDigit(c: char) {
    '0' <= c <= '9'
  }

  predicate IsAsciiLetter(c: char) {
    ('a' <= c <= 'z') || ('A' <= c <= 'Z')
  }

  /** Python's `\w`: never `.`, `-`, a space, `(` or `)`. */
  predicate IsWord(c: char) {
    IsAsciiLetter(c) || IsDigit(c) || c == '_'
  }

  /** The ASCII `\s` class: space, tab, newline, return, vertical tab and
      form feed. */
  predicate IsSpace(c: char) {
    c == ' ' || c == '\t' || c == '\n' || c == '\r' || c as int == 11 || c as int == 12
  }

  predicate AllDigits(s: string) {
    forall i :: 0 <= i < |s| ==> IsDigit(s[i])
  }

  predicate AllWord(s: string) {
    forall i :: 0 <= i < |s| ==> IsWord(s[i])
  }

  /** The ASCII characters `str.strip()` removes: the `\s` class and the
      four separators `\x1c` to `\x1f`. */
  predicate IsStripSpace(c: char) {
    IsSpace(c) || 0x1c <= c as int <= 0x1f
  }

  /** `s.strip()` is non-empty. */
  predicate NotBlank(s: string) {
    exists i :: 0 <= i < |s| && !IsStripSpace(s[i])
  }

  predicate StartsWith(s: string, prefix: string) {
    |prefix| <= |s| && s[..|prefix|] == prefix
  }

  predicate EndsWith(s: string, suffix: string) {
    |suffix| <= |s| && s[|s| - |suffix|..] == suffix
  }

  /** `str.endswith(tuple(suffixes))`. */
  predicate EndsWithAny(s: string, suffixes: seq<string>) {
    exists k :: 0 <= k < |suffixes| && EndsWith(s, suffixes[k])
  }

  function LowerChar(c: char): (r: char)
    ensures 'A' <= c <= 'Z' ==> r as int == c as int + 32
    ensures !('A' <= c <= 'Z') ==> r == c
  {
    if 'A' <= c <= 'Z' then (c as int + 32) as char else c
  }

  /** `str.lower()` on ASCII. */
  function Lower(s: string): (r: string)
    ensures |r| == |s|
    ensures forall i :: 0 <= i < |s| ==> r[i] == LowerChar(s[i])
    ensures forall i :: 0 <= i < |r| ==> !('A' <= r[i] <= 'Z')
  {
    if |s| == 0 then [] else [LowerChar(s[0])] + Lower(s[1..])
  }

  /** Lower-casing keeps a suffix a suffix. */
  lemma LowerSuffix(s: string, t: string)
    requires EndsWith(s, t)
    ensures EndsWith(Lower(s), Lower(t))
  {
    var n := |s| - |t|;
    var low := Lower(s);
    var lt := Lower(t);
    forall i | 0 <= i < |t| ensures low[n + i] == lt[i] {
      assert s[n + i] == s[n..][i];
    }
    assert low[n..] == lt;
  }

  /** Lower-casing twice is lower-casing once. */
  lemma LowerIdempotent(s: string)
    ensures Lower(Lower(s)) == Lower(s)
  {
    var r := Lower(s);
    assert forall i :: 0 <= i < |r| ==> Lower(r)[i] == r[i];
  }

  /** Index of the last occurrence of `c`, if any. */
  function LastIndexOf(s: string, c: char): (r: int)
    ensures -1 <= r < |s|
    ensures r >= 0 ==> s[r] == c
    ensures forall i :: r < i < |s| ==> s[i] != c
  {
    if |s| == 0 then -1
    else if s[|s| - 1] == c then |s| - 1
    else LastIndexOf(s[..|s| - 1], c)
  }

  /** `os.path.basename`: the text after the last `/`. */
  function Basename(p: string): (r: string)
    ensures '/' !in r
    ensures EndsWith(p, r)
  {
    NothingAfterLast(p, '/');
    p[LastIndexOf(p, '/') + 1..]
  }

  lemma NothingAfterLast(s: string, c: char)
    ensures c !in s[LastIndexOf(s, c) + 1..]
  {
    var k := LastIndexOf(s, c);
    var t := s[k + 1..];
    forall j | 0 <= j < |t| ensures t[j] != c {
      assert t[j] == s[k + 1 + j];
    }
  }

  /** `os.path.dirname`: the text before the last `/` (trailing slashes of a
      non-root head removed). */
  function Dirname(p: string): string {
    var k := LastIndexOf(p, '/');
    var head := if k < 0 then "" else p[..k + 1];
    if |head| > 0 && head != seq(|head|, _ => '/') then TrimTrailingSlashes(head) else head
  }

  function TrimTrailingSlashes(s: string): (r: string)
    ensures |r| <= |s|
    decreases |s|
  {
    if |s| > 0 && s[|s| - 1] == '/' then TrimTrailingSlashes(s[..|s| - 1]) else s
  }

  /** `posixpath.join(a, b)`: an absolute `b` replaces `a`; otherwise one `/`
      is inserted unless `a` is empty or already ends with one. */
  function Join(a: string, b: string): (r: string)
    ensures EndsWith(r, b)
    ensures (|b| == 0 || b[0] != '/') ==> StartsWith(r, a)
  {
    if |b| > 0 && b[0] == '/' then b
    else if |a| == 0 || a[|a| - 1] == '/' then a + b
    else a + "/" + b
  }

  /** Characters appended after the last `c` do not move it, if none is `c`. */
  lemma {:induction false} LastIndexAfter(x: string, b: string, c: char)
    requires c !in b
    ensures LastIndexOf(x + b, c) == LastIndexOf(x, c)
    decreases |b|
  {
    if |b| > 0 {
      var s := x + b;
      assert s[|s| - 1] == b[|b| - 1];
      assert b[|b| - 1] in b;
      assert s[..|s| - 1] == x + b[..|b| - 1];
      assert c !in b[..|b| - 1] by {
        forall i | 0 <= i < |b| - 1 ensures b[i] != c {
          assert b[i] in b;
        }
      }
      LastIndexAfter(x, b[..|b| - 1], c);
    } else {
      assert x + b == x;
    }
  }

  /** Joining a plain name onto a directory puts that name last. */
  lemma BasenameOfJoin(a: string, b: string)
    requires |b| > 0 && '/' !in b
    ensures Basename(Join(a, b)) == b
  {
    assert b[0] in b;
    var j := Join(a, b);
    if |a| == 0 {
      assert j == [] + b;
      LastIndexAfter([], b, '/');
    } else if a[|a| - 1] == '/' {
      LastIndexAfter(a, b, '/');
    } else {
      assert j == (a + "/") + b;
      LastIndexAfter(a + "/", b, '/');
    }
  }

  /** `s.split(sep)` for a one-character separator. */
  function Split(s: string, sep: char): (r: seq<string>)
    ensures |r| >= 1
    ensures forall k :: 0 <= k < |r| ==> sep !in r[k]
    decreases |s|
  {
    var k := LastIndexOf(s, sep);
    if k < 0 then [s]
    else
      NothingAfterLast(s, sep);
      Split(s[..k], sep) + [s[k + 1..]]
  }

  /** Glue the pieces back together with `sep` between them. */
  function JoinWith(parts: seq<string>, sep: char): string
    requires |parts| >= 1
  {
    if |parts| == 1 then parts[0] else JoinWith(parts[..|parts| - 1], sep) + [sep] + parts[|parts| - 1]
  }

  /** Splitting and re-joining on the same separator gives the string back. */
  lemma {:induction false} SplitJoin(s: string, sep: char)
    ensures JoinWith(Split(s, sep), sep) == s
    decreases |s|
  {
    var k := LastIndexOf(s, sep);
    if k >= 0 {
      SplitJoin(s[..k], sep);
      var parts := Split(s[..k], sep);
      assert Split(s, sep) == parts + [s[k + 1..]];
      assert (parts + [s[k + 1..]])[..|parts|] == parts;
      assert s == s[..k] + [sep] + s[k + 1..];
    }
  }

  /** Some character of `p[a..b]` is not a dot. */
  predicate NonDotIn(p: string, a: int, b: int)
    requires 0 <= a && b <= |p|
  {
    exists i :: a <= i < b && p[i] != '.'
  }

  /** Where `os.path.splitext` cuts `p`: at the last dot of the last path
      component, unless every character before that dot in the component is a
      dot too (so `.bashrc` has no extension); otherwise at the end. */
  function ExtStart(p: string): (r: int)
    ensures 0 <= r <= |p|
    ensures r < |p| ==> p[r] == '.' && '.' !in p[r + 1..] && '/' !in p[r..]
  {
    var sep := LastIndexOf(p, '/');
    var dot := LastIndexOf(p, '.');
    NothingAfterLast(p, '.');
    if dot > sep && NonDotIn(p, sep + 1, dot) then
      assert forall i :: 0 <= i < |p[dot..]| ==> p[dot..][i] == p[dot + i];
      dot
    else |p|
  }

  /** `os.path.splitext(p)`: the root and the extension, which is empty or a
      dot followed by no dot and no slash. */
  function SplitExt(p: string): (r: (string, string))
    ensures r.0 + r.1 == p
    ensures r.1 == [] || (r.1[0] == '.' && '.' !in r.1[1..] && '/' !in r.1)
  {
    var k := ExtStart(p);
    assert p[..k] + p[k..] == p;
    (p[..k], p[k..])
  }

  /** `os.path.splitext(p)[1]`. */
  function Extension(p: string): string {
    SplitExt(p).1
  }

  /** The last piece of `s.split(sep)` is the text after the last `sep`. */
  lemma SplitLast(s: string, sep: char)
    ensures Split(s, sep)[|Split(s, sep)| - 1] == s[LastIndexOf(s, sep) + 1..]
  {
  }

  /** `sep.join(parts)`, empty for no parts. */
  function JoinAll(parts: seq<string>, sep: char): string {
    if |parts| == 0 then "" else JoinWith(parts, sep)
  }

  /** One component of `posixpath.normpath`'s pass over the split path: empty
      and `.` components vanish, `..` cancels the previous component unless
      there is none to cancel (or it is `..` itself), anything else is kept. */
  function NormStep(acc: seq<string>, comp: string, initial: nat): seq<string> {
    if comp == "" || comp == "." then acc
    else if comp != ".." || (initial == 0 && |acc| == 0) || (|acc| > 0 && acc[|acc| - 1] == "..") then acc + [comp]
    else if |acc| > 0 then acc[..|acc| - 1]
    else acc
  }

  function NormComps(comps: seq<string>, initial: nat): seq<string>
    decreases |comps|
  {
    if |comps| == 0 then [] else NormStep(NormComps(comps[..|comps| - 1], initial), comps[|comps| - 1], initial)
  }

  /** The number of leading slashes `posixpath.normpath` keeps: two exactly
      when the path starts with exactly two. */
  function InitialSlashes(p: string): nat {
    if StartsWith(p, "/") then (if StartsWith(p, "//") && !StartsWith(p, "///") then 2 else 1) else 0
  }

  lemma AppendAssoc(a: string, b: string, c: string)
    ensures a + (b + c) == (a + b) + c
  {
  }

  /** `n` slashes. */
  function Slashes(n: nat): (r: string)
    ensures |r| == n && forall i :: 0 <= i < n ==> r[i] == '/'
  {
    seq(n, _ => '/')
  }

  /** `posixpath.normpath(p)`. */
  function NormPath(p: string): string {
    if p == "" then "."
    else
      var initial := InitialSlashes(p);
      var path := Slashes(initial) + JoinAll(NormComps(Split(p, '/'), initial), '/');
      if path == "" then "." else path
  }

  /** A name that is a real last component: not empty, `.` or `..`. */
  predicate PlainName(f: string) {
    f != "" && f != "." && f != ".."
  }

  /** What `sep.join(parts)` holds before its last piece: the other pieces
      joined, and a separator, when there are other pieces. */
  function JoinFront(parts: seq<string>, sep: char): string
    requires |parts| > 0
  {
    if |parts| > 1 then JoinWith(parts[..|parts| - 1], sep) + [sep] else ""
  }

  /** Joined pieces end with the last piece, after a separator if there are
      other pieces. */
  lemma JoinAllLast(parts: seq<string>, sep: char)
    requires |parts| > 0
    ensures JoinAll(parts, sep) == JoinFront(parts, sep) + parts[|parts| - 1]
    ensures JoinFront(parts, sep) == [] || JoinFront(parts, sep)[|JoinFront(parts, sep)| - 1] == sep
  {
    if |parts| == 1 {
      assert JoinAll(parts, sep) == [] + parts[0];
    }
  }

  /** A name without a slash after nothing or after a slash is the basename. */
  lemma BasenameAfterSlash(y: string, f: string)
    requires |f| > 0 && '/' !in f
    requires y == [] || y[|y| - 1] == '/'
    ensures Basename(y + f) == f
  {
    LastIndexAfter(y, f, '/');
    assert (y + f)[|y|..] == f;
  }

  /** Leading slashes in front of text that is empty or ends in a slash
      make text that is empty or ends in a slash. */
  lemma SlashesThenFront(initial: nat, x: string)
    requires x == [] || x[|x| - 1] == '/'
    ensures var y := Slashes(initial) + x; y == [] || y[|y| - 1] == '/'
  {
    var y := Slashes(initial) + x;
    if x != [] {
      assert y[|y| - 1] == x[|x| - 1];
    }
  }

  /** Where a path ends in a plain name, its normal form is the leading
      slashes, the normalised other components each followed by a slash, and
      that name. */
  lemma NormPathSplit(p: string)
    requires PlainName(Basename(p))
    ensures |Split(p, '/')| > 0
    ensures var initial := InitialSlashes(p);
      NormPath(p) == (Slashes(initial) + JoinFront(NormComps(Split(p, '/'), initial), '/')) + Basename(p)
  {
    var f := Basename(p);
    var parts := Split(p, '/');
    SplitLast(p, '/');
    var initial := InitialSlashes(p);
    var comps := NormComps(parts, initial);
    assert comps == NormComps(parts[..|parts| - 1], initial) + [f];
    JoinAllLast(comps, '/');
    var x := JoinFront(comps, '/');
    assert JoinAll(comps, '/') == x + f;
    AppendAssoc(Slashes(initial), x, f);
    assert p != "";
  }

  /** Normalising keeps a plain last component last. */
  lemma NormPathKeepsName(p: string)
    requires PlainName(Basename(p))
    ensures Basename(NormPath(p)) == Basename(p)
  {
    NormPathSplit(p);
    var initial := InitialSlashes(p);
    var x := JoinFront(NormComps(Split(p, '/'), initial), '/');
    SlashesThenFront(initial, x);
    BasenameAfterSlash(Slashes(initial) + x, Basename(p));
  }

  // ---------------------------------------------------------------------------
  // Decimal integers, as `f"{n}"` prints them
  // ---------------------------------------------------------------------------

  function DigitChar(d: nat): (c: char)
    requires d < 10
    ensures IsDigit(c)
  {
    ('0' as int + d) as char
  }

  function DigitValue(c: char): nat
    requires IsDigit(c)
  {
    (c as int - '0' as int) as nat
  }

  /** The decimal spelling of `n`, no leading zeros. */
  function NatToString(n: nat): (r: string)
    ensures |r| >= 1 && AllDigits(r)
    decreases n
  {
    if n < 10 then [DigitChar(n)] else NatToString(n / 10) + [DigitChar(n % 10)]
  }

  /** Reads a string of decimal digits. */
  function ParseNat(s: string): nat
    requires AllDigits(s)
    decreases |s|
  {
    if |s| == 0 then 0 else 10 * ParseNat(s[..|s| - 1]) + DigitValue(s[|s| - 1])
  }

  /** Printing then reading a natural number gives it back. */
  lemma {:induction false} ParsePrinted(n: nat)
    ensures ParseNat(NatToString(n)) == n
    decreases n
  {
    if n >= 10 {
      ParsePrinted(n / 10);
      var s := NatToString(n);
      assert s[..|s| - 1] == NatToString(n / 10);
    }
  }

  /** Different numbers print differently. */
  lemma NatToStringInjective(a: nat, b: nat)
    requires NatToString(a) == NatToString(b)
    ensures a == b
  {
    ParsePrinted(a);
    ParsePrinted(b);
  }
}
