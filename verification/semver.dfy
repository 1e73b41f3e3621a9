/** Semantic versions: parsing, printing, precedence, and the latest release of a channel. */
module SemVer {
  import opened Options

  const U32: nat := 0x1_0000_0000

  type Word = x: nat | x < U32

  datatype Version = Version(major: Word, minor: Word, patch: Word, prerelease: Option<string>, build: Option<string>)

  // ---- Printing ----

  function Digit(d: nat): char
    requires d < 10
  {
    "0123456789"[d]
  }

  function PrintNat(n: nat): string {
    if n < 10 then [Digit(n)] else PrintNat(n / 10) + [Digit(n % 10)]
  }

  function Core(v: Version): string {
    PrintNat(v.major) + "." + PrintNat(v.minor) + "." + PrintNat(v.patch)
  }

  function Suffix(mark: char, text: Option<string>): string {
    if text.Some? then [mark] + text.value else ""
  }

  function Print(v: Version): string {
    Core(v) + Suffix('-', v.prerelease) + Suffix('+', v.build)
  }

  // ---- Parsing ----

  /** The first position of c in s, or |s|. */
  function Find(s: string, c: char): (i: nat)
    ensures i <= |s| && c !in s[..i] && (i < |s| ==> s[i] == c)
  {
    if s == [] || s[0] == c then 0
    else
      var i := 1 + Find(s[1..], c);
      assert s[..i] == [s[0]] + s[1..][..i - 1];
      i
  }

  /** Cut s at the first c: the part before, and the part after if there is a c. */
  function Cut(s: string, c: char): (string, Option<string>) {
    var i := Find(s, c);
    if i < |s| then (s[..i], Some(s[i + 1..])) else (s, None)
  }

  function Split(s: string, c: char): seq<string> {
    var i := Find(s, c);
    if i < |s| then [s[..i]] + Split(s[i + 1..], c) else [s]
  }

  predicate IsDigit(c: char) {
    '0' <= c <= '9'
  }

  function DigitsValue(s: string): Option<nat> {
    if s == [] then Some(0)
    else
      var c := s[|s| - 1];
      var rest := DigitsValue(s[..|s| - 1]);
      if rest.Some? && IsDigit(c) then Some(10 * rest.value + (c as int - '0' as int)) else None
  }

  /** str::parse::<u32>: an optional plus sign, at least one digit, no overflow. */
  function ParseU32(s: string): Option<Word> {
    var digits := if |s| > 1 && s[0] == '+' then s[1..] else s;
    var v := DigitsValue(digits);
    if digits != [] && v.Some? && v.value < U32 then Some(v.value) else None
  }

  function Parse(s: string): Option<Version> {
    var (versionStr, build) := Cut(s, '+');
    var (core, prerelease) := Cut(versionStr, '-');
    var parts := Split(core, '.');
    if |parts| != 3 then None
    else
      var major, minor, patch := ParseU32(parts[0]), ParseU32(parts[1]), ParseU32(parts[2]);
      if major.Some? && minor.Some? && patch.Some? then
        Some(Version(major.value, minor.value, patch.value, prerelease, build))
      else None
  }

  // ---- Round trip ----

  ghost predicate AllDigits(s: string) {
    forall i :: 0 <= i < |s| ==> IsDigit(s[i])
  }

  lemma DigitChar(d: nat)
    requires d < 10
    ensures IsDigit(Digit(d)) && Digit(d) as int - '0' as int == d
  {
  }

  lemma {:induction false} PrintedDigits(n: nat)
    ensures PrintNat(n) != [] && AllDigits(PrintNat(n)) && DigitsValue(PrintNat(n)) == Some(n)
  {
    if n < 10 {
      DigitChar(n);
      assert PrintNat(n)[..0] == [];
    } else {
      PrintedDigits(n / 10);
      DigitChar(n % 10);
      assert PrintNat(n)[..|PrintNat(n)| - 1] == PrintNat(n / 10);
    }
  }

  lemma PrintedParses(n: Word)
    ensures ParseU32(PrintNat(n)) == Some(n)
  {
    PrintedDigits(n);
    assert IsDigit(PrintNat(n)[0]);
  }

  lemma {:induction false} FindAt(a: string, c: char, b: string)
    requires c !in a
    ensures Find(a + [c] + b, c) == |a|
  {
    if a != [] {
      FindAt(a[1..], c, b);
      assert (a + [c] + b)[1..] == a[1..] + [c] + b;
    }
  }

  /** Cutting finds the first mark, whatever follows it. */
  lemma CutAt(a: string, c: char, b: string)
    requires c !in a
    ensures Cut(a + [c] + b, c) == (a, Some(b))
  {
    FindAt(a, c, b);
    var s := a + [c] + b;
    assert s[..|a|] == a && s[|a| + 1..] == b;
  }

  lemma CutNone(a: string, c: char)
    requires c !in a
    ensures Cut(a, c) == (a, None)
  {
  }

  lemma CutSuffix(a: string, c: char, text: Option<string>)
    requires c !in a
    ensures Cut(a + Suffix(c, text), c) == (a, text)
  {
    var s := a + Suffix(c, text);
    if text.Some? {
      assert s == a + [c] + text.value;
      CutAt(a, c, text.value);
    } else {
      assert s == a;
      CutNone(a, c);
    }
  }

  lemma Join(s: string, a: string, b: string, d: string, c: char, rest: string)
    requires s == a + [c] + rest && rest == b + [c] + d
    ensures s == a + [c] + b + [c] + d
  {
  }

  lemma SplitHead(a: string, c: char, rest: string)
    requires c !in a
    ensures Split(a + [c] + rest, c) == [a] + Split(rest, c)
  {
    CutAt(a, c, rest);
  }

  lemma SplitThree(a: string, b: string, d: string, c: char)
    requires c !in a && c !in b && c !in d
    ensures Split(a + [c] + b + [c] + d, c) == [a, b, d]
  {
    Join(a + [c] + (b + [c] + d), a, b, d, c, b + [c] + d);
    SplitHead(a, c, b + [c] + d);
    SplitHead(b, c, d);
    SplitNone(d, c);
    Three(a, b, d);
  }

  lemma SplitNone(d: string, c: char)
    requires c !in d
    ensures Split(d, c) == [d]
  {
  }

  lemma Three(a: string, b: string, d: string)
    ensures [a] + ([b] + [d]) == [a, b, d]
  {
  }

  lemma DigitsPlain(n: nat, c: char)
    requires !IsDigit(c)
    ensures c !in PrintNat(n)
  {
    PrintedDigits(n);
  }

  lemma CorePlain(v: Version)
    ensures '-' !in Core(v) && '+' !in Core(v)
  {
    forall n: nat, c | !IsDigit(c) ensures c !in PrintNat(n) {
      DigitsPlain(n, c);
    }
    assert !IsDigit('-') && !IsDigit('+');
  }

  lemma CoreFacts(v: Version)
    ensures Split(Core(v), '.') == [PrintNat(v.major), PrintNat(v.minor), PrintNat(v.patch)]
    ensures '-' !in Core(v) && '+' !in Core(v)
  {
    CorePlain(v);
    var a, b, d := PrintNat(v.major), PrintNat(v.minor), PrintNat(v.patch);
    PrintedDigits(v.major);
    PrintedDigits(v.minor);
    PrintedDigits(v.patch);
    SplitThree(a, b, d, '.');
    assert Core(v) == a + ['.'] + b + ['.'] + d;
  }

  /** Parsing the core with given suffix texts. */
  lemma ParseParts(s: string, v: Version, pre: Option<string>, build: Option<string>)
    requires Cut(s, '+') == (Core(v) + Suffix('-', pre), build)
    ensures Parse(s) == Some(v.(prerelease := pre, build := build))
  {
    CoreFacts(v);
    CutSuffix(Core(v), '-', pre);
    PrintedParses(v.major);
    PrintedParses(v.minor);
    PrintedParses(v.patch);
  }

  predicate NoPlus(text: Option<string>) {
    text.Some? ==> '+' !in text.value
  }

  lemma PlainRoundTrip(v: Version)
    requires NoPlus(v.prerelease)
    ensures Parse(Print(v)) == Some(v)
  {
    CoreFacts(v);
    var head := Core(v) + Suffix('-', v.prerelease);
    assert '+' !in head;
    CutSuffix(head, '+', v.build);
    ParseParts(Print(v), v, v.prerelease, v.build);
  }

  /** Parsing cuts at the first plus sign, so no parsed prerelease contains one. */
  lemma PlusCutsPrerelease(v: Version)
    requires !NoPlus(v.prerelease)
    ensures Parse(Print(v)) != Some(v)
  {
  }

  /** Parsing what was printed returns the version exactly when its prerelease has no plus sign. */
  lemma RoundTripExactly(v: Version)
    ensures Parse(Print(v)) == Some(v) <==> NoPlus(v.prerelease)
  {
    if NoPlus(v.prerelease) {
      PlainRoundTrip(v);
    } else {
      PlusCutsPrerelease(v);
    }
  }

  /** Every version that came from parsing prints to a text that parses to it again. */
  lemma ParsedRoundTrips(s: string)
    requires Parse(s).Some?
    ensures NoPlus(Parse(s).value.prerelease) && Parse(Print(Parse(s).value)) == Parse(s)
  {
    var head := Cut(s, '+').0;
    assert '+' !in head by {
      assert s[..|s|] == s;
    }
    var i := Find(head, '-');
    if i < |head| {
      assert forall c :: c in head[i + 1..] ==> c in head;
    }
    PlainRoundTrip(Parse(s).value);
  }

  // ---- The texts that are versions ----

  /** The number decimal digits spell. */
  function Decimal(x: string): nat
    requires forall i :: 0 <= i < |x| ==> '0' <= x[i] <= '9'
  {
    if x == [] then 0 else 10 * Decimal(x[..|x| - 1]) + (x[|x| - 1] as int - 48)
  }

  /** x is one or more digits and spells n, a 32-bit number. */
  ghost predicate Spells(x: string, n: nat) {
    x != [] && (forall i :: 0 <= i < |x| ==> '0' <= x[i] <= '9') && Decimal(x) == n < 0x1_0000_0000
  }

  lemma {:induction false} DigitsExactly(x: string, n: nat)
    ensures DigitsValue(x) == Some(n) <==> (forall i :: 0 <= i < |x| ==> '0' <= x[i] <= '9') && Decimal(x) == n
  {
    if x != [] {
      var front := x[..|x| - 1];
      DigitsExactly(front, if DigitsValue(front).Some? then DigitsValue(front).value else 0);
      if forall i :: 0 <= i < |x| ==> '0' <= x[i] <= '9' {
        assert forall i :: 0 <= i < |front| ==> front[i] == x[i];
        DigitsExactly(front, Decimal(front));
      }
      if DigitsValue(x).Some? {
        assert forall i :: 0 <= i < |x| ==> x[i] == if i < |front| then front[i] else x[|x| - 1];
      }
    }
  }

  /** A number is accepted exactly when it is spelled in digits, after at most one plus sign. */
  lemma NumberExactly(x: string, n: nat)
    requires n < 0x1_0000_0000
    ensures ParseU32(x) == Some(n) <==> Spells(x, n) || (x != [] && x[0] == '+' && Spells(x[1..], n))
  {
    DigitsExactly(x, n);
    if x != [] {
      DigitsExactly(x[1..], n);
    }
  }

  /** Three numbers with dots between them, then the prerelease after a dash and the build after a plus sign, if any. */
  ghost predicate WrittenAs(s: string, v: Version, x: string, y: string, z: string) {
    && s == x + "." + y + "." + z
            + (if v.prerelease.Some? then "-" + v.prerelease.value else "")
            + (if v.build.Some? then "+" + v.build.value else "")
    && Spells(x, v.major) && Spells(y, v.minor) && Spells(z, v.patch)
    && (v.prerelease.Some? ==> '+' !in v.prerelease.value)
  }

  ghost predicate Written(s: string, v: Version) {
    exists x, y, z :: WrittenAs(s, v, x, y, z)
  }

  lemma CutBack(s: string, c: char)
    ensures var (head, text) := Cut(s, c); s == head + Suffix(c, text) && c !in head
  {
    assert s[..|s|] == s;
  }

  lemma SplitFirst(s: string, c: char) returns (rest: string)
    requires |Split(s, c)| >= 2
    ensures s == Split(s, c)[0] + [c] + rest && Split(s, c)[1..] == Split(rest, c)
  {
    var i := Find(s, c);
    rest := s[i + 1..];
    assert s == s[..i] + [c] + rest;
  }

  lemma SplitTwoBack(s: string, c: char)
    requires |Split(s, c)| == 2
    ensures s == Split(s, c)[0] + [c] + Split(s, c)[1]
  {
    var last := SplitFirst(s, c);
    SplitLast(last, c);
    assert Split(s, c)[1] == Split(s, c)[1..][0];
  }

  lemma SplitBack(s: string, c: char)
    requires |Split(s, c)| == 3
    ensures var p := Split(s, c); s == p[0] + [c] + p[1] + [c] + p[2]
  {
    var p := Split(s, c);
    var rest := SplitFirst(s, c);
    assert Split(rest, c) == p[1..] && p[1..][0] == p[1] && p[1..][1] == p[2];
    SplitTwoBack(rest, c);
    Join(s, p[0], p[1], p[2], c, rest);
  }

  lemma SplitLast(s: string, c: char)
    requires |Split(s, c)| == 1
    ensures Split(s, c) == [s]
  {
    var i := Find(s, c);
    if i < |s| {
      SplitSome(s[i + 1..], c);
    }
  }

  lemma SplitSome(s: string, c: char)
    ensures Split(s, c) != []
  {
  }

  lemma CoreText(x: string, y: string, z: string)
    requires (forall c :: c in x || c in y || c in z ==> '0' <= c <= '9')
    ensures var core := x + ['.'] + y + ['.'] + z;
            '-' !in core && '+' !in core && Split(core, '.') == [x, y, z]
  {
    SplitThree(x, y, z, '.');
  }

  lemma WrittenParses(s: string, v: Version, x: string, y: string, z: string)
    requires WrittenAs(s, v, x, y, z)
    ensures Parse(s) == Some(v)
  {
    var core := x + ['.'] + y + ['.'] + z;
    CoreText(x, y, z);
    var head := core + Suffix('-', v.prerelease);
    assert s == head + Suffix('+', v.build);
    assert '+' !in head;
    CutSuffix(head, '+', v.build);
    CutSuffix(core, '-', v.prerelease);
    NumberExactly(x, v.major);
    NumberExactly(y, v.minor);
    NumberExactly(z, v.patch);
  }

  lemma ParsedWritten(s: string)
    requires Parse(s).Some?
    ensures Written(s, Parse(s).value)
  {
    var v := Parse(s).value;
    CutBack(s, '+');
    var head := Cut(s, '+').0;
    CutBack(head, '-');
    var core := Cut(head, '-').0;
    SplitBack(core, '.');
    var p := Split(core, '.');
    assert forall c :: c in core ==> c in head;
    NumberExactly(p[0], v.major);
    NumberExactly(p[1], v.minor);
    NumberExactly(p[2], v.patch);
    NoLeadingPlus(core, p);
    assert WrittenAs(s, v, p[0], p[1], p[2]);
  }

  lemma NoLeadingPlus(core: string, p: seq<string>)
    requires |p| == 3 && core == p[0] + ['.'] + p[1] + ['.'] + p[2] && '+' !in core
    ensures forall k :: 0 <= k < 3 ==> (p[k] != [] ==> p[k][0] != '+')
  {
    forall k | 0 <= k < 3 ensures p[k] != [] ==> p[k][0] != '+' {
      assert p[k] != [] ==> p[k][0] in core;
    }
  }

  /** Parsing accepts exactly the texts that are versions, and returns the version. */
  lemma ParsesExactly(s: string, v: Version)
    ensures Parse(s) == Some(v) <==> Written(s, v)
  {
    if Parse(s) == Some(v) {
      ParsedWritten(s);
    }
    if x, y, z :| WrittenAs(s, v, x, y, z) {
      WrittenParses(s, v, x, y, z);
    }
  }

  lemma {:induction false} PrintedSpells(n: nat)
    requires n < 0x1_0000_0000
    ensures Spells(PrintNat(n), n) && (|PrintNat(n)| > 1 ==> PrintNat(n)[0] != '0')
  {
    PrintedDigits(n);
    DigitsExactly(PrintNat(n), n);
    if n >= 10 {
      PrintedSpells(n / 10);
      if n / 10 < 10 {
        DigitChar(n / 10);
      }
    }
  }

  /** Printing writes the three numbers without leading zeros. */
  lemma PrintsExactly(v: Version)
    ensures NoPlus(v.prerelease) ==> WrittenAs(Print(v), v, PrintNat(v.major), PrintNat(v.minor), PrintNat(v.patch))
    ensures forall n :: n in [v.major, v.minor, v.patch] ==> |PrintNat(n)| > 1 ==> PrintNat(n)[0] != '0'
  {
    PrintedSpells(v.major);
    PrintedSpells(v.minor);
    PrintedSpells(v.patch);
  }

  // ---- Precedence ----

  datatype Ordering = Less | Equal | Greater

  function Reverse(o: Ordering): Ordering {
    match o
    case Less => Greater
    case Equal => Equal
    case Greater => Less
  }

  function CmpNat(a: nat, b: nat): Ordering {
    if a < b then Less else if a > b then Greater else Equal
  }

  function CmpString(a: string, b: string): Ordering {
    if a == [] && b == [] then Equal
    else if a == [] then Less
    else if b == [] then Greater
    else if a[0] != b[0] then if a[0] < b[0] then Less else Greater
    else CmpString(a[1..], b[1..])
  }

  function CmpPrecedence(a: Version, b: Version): Ordering {
    if CmpNat(a.major, b.major) != Equal then CmpNat(a.major, b.major)
    else if CmpNat(a.minor, b.minor) != Equal then CmpNat(a.minor, b.minor)
    else if CmpNat(a.patch, b.patch) != Equal then CmpNat(a.patch, b.patch)
    else
      match (a.prerelease, b.prerelease)
      case (None, None) => Equal
      case (Some(_), None) => Less
      case (None, Some(_)) => Greater
      case (Some(x), Some(y)) => CmpString(x, y)
  }

  lemma {:induction false} StringOrder(a: string, b: string)
    ensures CmpString(b, a) == Reverse(CmpString(a, b))
    ensures CmpString(a, b) == Equal <==> a == b
  {
    if a != [] && b != [] && a[0] == b[0] {
      StringOrder(a[1..], b[1..]);
      assert a == [a[0]] + a[1..] && b == [b[0]] + b[1..];
    }
  }

  lemma {:induction false} StringTransitive(a: string, b: string, c: string)
    requires CmpString(a, b) != Greater && CmpString(b, c) != Greater
    ensures CmpString(a, c) != Greater
  {
    if a != [] && b != [] && c != [] && a[0] == b[0] == c[0] {
      StringTransitive(a[1..], b[1..], c[1..]);
    }
  }

  predicate AtMost(a: Version, b: Version) {
    CmpPrecedence(a, b) != Greater
  }

  /** Precedence is a total preorder that ignores build metadata and nothing else. */
  lemma PrecedenceOrder(a: Version, b: Version, c: Version)
    ensures CmpPrecedence(b, a) == Reverse(CmpPrecedence(a, b))
    ensures CmpPrecedence(a, b) == Equal <==> a.(build := None) == b.(build := None)
    ensures AtMost(a, b) || AtMost(b, a)
    ensures AtMost(a, b) && AtMost(b, c) ==> AtMost(a, c)
  {
    if a.prerelease.Some? && b.prerelease.Some? {
      StringOrder(a.prerelease.value, b.prerelease.value);
      if c.prerelease.Some? {
        var x, y, z := a.prerelease.value, b.prerelease.value, c.prerelease.value;
        if CmpString(x, y) != Greater && CmpString(y, z) != Greater {
          StringTransitive(x, y, z);
        }
      }
    }
  }

  // ---- What precedence means ----

  /** x is a proper prefix of y, or has the smaller character where they first differ. */
  ghost predicate TextBefore(x: string, y: string) {
    exists k :: DiffersAt(x, y, k)
  }

  predicate DiffersAt(x: string, y: string, k: nat) {
    && k <= |x| && k < |y| && x[..k] == y[..k]
    && (k < |x| ==> x[k] < y[k])
  }

  lemma NothingShared(x: string, y: string, k: nat)
    ensures DiffersAt(x, y, k) && k > 0 ==> x != [] && y != [] && x[0] == y[0]
  {
    if 0 < k <= |x| && k <= |y| {
      assert x[0] == x[..k][0] && y[0] == y[..k][0];
    }
  }

  lemma {:induction false} TextOrder(x: string, y: string)
    ensures CmpString(x, y) == Less <==> TextBefore(x, y)
  {
    if x == [] || y == [] || x[0] != y[0] {
      if CmpString(x, y) == Less {
        assert DiffersAt(x, y, 0);
      }
      forall k: nat ensures DiffersAt(x, y, k) ==> k == 0 {
        NothingShared(x, y, k);
      }
    } else {
      TextOrder(x[1..], y[1..]);
      if k: nat :| DiffersAt(x[1..], y[1..], k) {
        assert x[..k + 1] == [x[0]] + x[1..][..k] && y[..k + 1] == [y[0]] + y[1..][..k];
        assert DiffersAt(x, y, k + 1);
      }
      if k: nat :| DiffersAt(x, y, k) {
        assert k > 0;
        assert x[1..][..k - 1] == x[..k][1..] && y[1..][..k - 1] == y[..k][1..];
        assert DiffersAt(x[1..], y[1..], k - 1);
      }
    }
  }

  predicate SameNumbers(a: Version, b: Version) {
    a.major == b.major && a.minor == b.minor && a.patch == b.patch
  }

  /** a ranks below b: smaller numbers, compared from major to patch; or the same numbers and a is a prerelease of them
      while b is the release, or both are prereleases and a's text comes first. */
  ghost predicate Precedes(a: Version, b: Version) {
    || a.major < b.major
    || (a.major == b.major && a.minor < b.minor)
    || (a.major == b.major && a.minor == b.minor && a.patch < b.patch)
    || (SameNumbers(a, b) && a.prerelease.Some? &&
        (b.prerelease.None? || TextBefore(a.prerelease.value, b.prerelease.value)))
  }

  lemma PrecedenceExactly(a: Version, b: Version)
    ensures CmpPrecedence(a, b) == Less <==> Precedes(a, b)
    ensures CmpPrecedence(a, b) == Greater <==> Precedes(b, a)
  {
    PrecedenceOrder(a, b, b);
    if a.prerelease.Some? && b.prerelease.Some? {
      TextOrder(a.prerelease.value, b.prerelease.value);
      TextOrder(b.prerelease.value, a.prerelease.value);
    }
  }

  // ---- The latest release ----

  datatype Channel = Stable | Beta | Nightly

  datatype Release = Release(channel: Channel, version: Version)

  /** Iterator::max_by over the releases of a channel: on a tie the later one wins. */
  function Latest(releases: seq<Release>, channel: Channel): Option<Version> {
    if releases == [] then None
    else
      var best := Latest(releases[..|releases| - 1], channel);
      var r := releases[|releases| - 1];
      if r.channel != channel then best
      else if best.Some? && CmpPrecedence(best.value, r.version) == Greater then best
      else Some(r.version)
  }

  /** Position k holds a version of the channel that no other exceeds and no later one equals. */
  ghost predicate IsLastMax(releases: seq<Release>, channel: Channel, k: int) {
    && 0 <= k < |releases|
    && releases[k].channel == channel
    && (forall i :: 0 <= i < |releases| && releases[i].channel == channel ==> AtMost(releases[i].version, releases[k].version))
    && (forall i :: k < i < |releases| && releases[i].channel == channel ==> CmpPrecedence(releases[i].version, releases[k].version) == Less)
  }

  lemma LatestStep(releases: seq<Release>, channel: Channel, j: int, k: int)
    requires releases != [] && IsLastMax(releases[..|releases| - 1], channel, j)
    requires var r := releases[|releases| - 1];
             k == if r.channel != channel || CmpPrecedence(releases[j].version, r.version) == Greater then j else |releases| - 1
    ensures IsLastMax(releases, channel, k)
  {
    var front, r := releases[..|releases| - 1], releases[|releases| - 1];
    assert forall i :: 0 <= i < |front| ==> front[i] == releases[i];
    PrecedenceOrder(releases[j].version, r.version, r.version);
    PrecedenceOrder(r.version, r.version, r.version);
    forall i | 0 <= i < |releases| && releases[i].channel == channel
      ensures AtMost(releases[i].version, releases[k].version)
    {
      if i < |front| {
        assert AtMost(front[i].version, front[j].version);
        PrecedenceOrder(releases[i].version, releases[j].version, releases[k].version);
      }
    }
  }

  lemma {:induction false} LatestIsMax(releases: seq<Release>, channel: Channel)
    ensures Latest(releases, channel).None? <==> forall i :: 0 <= i < |releases| ==> releases[i].channel != channel
    ensures Latest(releases, channel).Some? ==>
              exists k :: IsLastMax(releases, channel, k) && releases[k].version == Latest(releases, channel).value
  {
    if releases != [] {
      var front, n := releases[..|releases| - 1], |releases| - 1;
      LatestIsMax(front, channel);
      var r := releases[n];
      assert forall i :: 0 <= i < n ==> front[i] == releases[i];
      if Latest(releases, channel).Some? {
        var k := n;
        if Latest(front, channel).Some? {
          var j :| IsLastMax(front, channel, j) && front[j].version == Latest(front, channel).value;
          if r.channel != channel || CmpPrecedence(front[j].version, r.version) == Greater {
            k := j;
          }
          LatestStep(releases, channel, j, k);
        } else {
          PrecedenceOrder(r.version, r.version, r.version);
          assert IsLastMax(releases, channel, n);
        }
      }
    }
  }

  /** Position k holds a version of the channel that precedes no other and that every later one precedes. */
  ghost predicate IsLastGreatest(releases: seq<Release>, channel: Channel, k: int) {
    && 0 <= k < |releases|
    && releases[k].channel == channel
    && (forall i :: 0 <= i < |releases| && releases[i].channel == channel ==> !Precedes(releases[k].version, releases[i].version))
    && (forall i :: k < i < |releases| && releases[i].channel == channel ==> Precedes(releases[i].version, releases[k].version))
  }

  /** The latest release is the last of the channel's greatest versions, and exists exactly when the channel has one. */
  lemma LatestIsGreatest(releases: seq<Release>, channel: Channel)
    ensures Latest(releases, channel).None? <==> forall i :: 0 <= i < |releases| ==> releases[i].channel != channel
    ensures Latest(releases, channel).Some? ==>
              exists k :: IsLastGreatest(releases, channel, k) && releases[k].version == Latest(releases, channel).value
  {
    LatestIsMax(releases, channel);
    if Latest(releases, channel).Some? {
      var k :| IsLastMax(releases, channel, k) && releases[k].version == Latest(releases, channel).value;
      forall i | 0 <= i < |releases| {
        PrecedenceExactly(releases[i].version, releases[k].version);
      }
      assert IsLastGreatest(releases, channel, k);
    }
  }

  /** A channel that holds a release never answers with a prerelease of the same numbers. */
  lemma ReleaseBeatsPrerelease(releases: seq<Release>, channel: Channel, i: nat)
    requires i < |releases| && releases[i].channel == channel && releases[i].version.prerelease.None?
    ensures Latest(releases, channel).Some?
    ensures SameNumbers(Latest(releases, channel).value, releases[i].version) ==>
              Latest(releases, channel).value.prerelease.None?
  {
    LatestIsGreatest(releases, channel);
  }
}
