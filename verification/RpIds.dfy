/** The configured relying-party identifiers: from flags and an environment variable to a sorted list of host names. */
module RpIds {
  import opened Bytes

  /** White space and case folding of the platform, which leave the characters of host names alone. */
  datatype Text = Text(isSpace: char -> bool, lower: char -> char)
  {
    ghost predicate Sane() {
      forall c: char | IsHostChar(c) :: !isSpace(c) && lower(c) == c
    }
  }

  predicate IsLetterOrDigit(c: char) {
    'a' <= c <= 'z' || '0' <= c <= '9'
  }

  predicate IsHostChar(c: char) {
    IsLetterOrDigit(c) || c == '-' || c == '.'
  }

  // ---------------------------------------------------------------- strings

  function TrimLeft(t: Text, s: string): string {
    if s != [] && t.isSpace(s[0]) then TrimLeft(t, s[1..]) else s
  }

  function TrimRight(t: Text, s: string): string {
    if s != [] && t.isSpace(s[|s| - 1]) then TrimRight(t, s[..|s| - 1]) else s
  }

  function Lowered(t: Text, s: string): (r: string)
    ensures |r| == |s|
  {
    seq(|s|, i requires 0 <= i < |s| => t.lower(s[i]))
  }

  function Normal(t: Text, raw: string): string {
    Lowered(t, TrimRight(t, TrimLeft(t, raw)))
  }

  function Split(s: string, sep: char): (parts: seq<string>)
    ensures parts != []
  {
    if s == [] then [""]
    else
      var rest := Split(s[1..], sep);
      if s[0] == sep then [""] + rest else [[s[0]] + rest[0]] + rest[1..]
  }

  function Join(parts: seq<string>, sep: char): string {
    if parts == [] then ""
    else if |parts| == 1 then parts[0]
    else parts[0] + [sep] + Join(parts[1..], sep)
  }

  lemma {:induction false} SplitPart(p: string, rest: string, sep: char)
    requires sep !in p
    ensures Split(p + [sep] + rest, sep) == [p] + Split(rest, sep)
    ensures Split(p, sep) == [p]
  {
    var s := p + [sep] + rest;
    if p == [] {
      assert s[1..] == rest;
    } else {
      SplitPart(p[1..], rest, sep);
      assert s[1..] == p[1..] + [sep] + rest;
      assert p == [p[0]] + p[1..];
    }
  }

  lemma {:induction false} SplitJoin(parts: seq<string>, sep: char)
    requires parts != [] && forall p <- parts :: sep !in p
    ensures Split(Join(parts, sep), sep) == parts
  {
    assert parts[0] in parts;
    SplitPart(parts[0], if |parts| == 1 then "" else Join(parts[1..], sep), sep);
    if |parts| > 1 {
      assert forall p <- parts[1..] :: p in parts;
      SplitJoin(parts[1..], sep);
    }
  }

  // ---------------------------------------------------------------- validity

  predicate ValidLabel(piece: string) {
    && piece != "" && |piece| <= 63 && piece[0] != '-' && piece[|piece| - 1] != '-'
    && forall c <- piece :: IsLetterOrDigit(c) || c == '-'
  }

  predicate AllValidLabels(labels: seq<string>) {
    forall piece <- labels :: ValidLabel(piece)
  }

  predicate IsDigit(c: char) {
    '0' <= c <= '9'
  }

  function Decimal(s: string): nat
    requires forall c <- s :: IsDigit(c)
  {
    if s == [] then 0
    else
      assert IsDigit(s[|s| - 1]) && forall c <- s[..|s| - 1] :: c in s;
      10 * Decimal(s[..|s| - 1]) + (s[|s| - 1] as int - '0' as int)
  }

  /** The only addresses without a colon: four decimal fields up to 255 without leading zeros. */
  predicate IsIPv4(s: string) {
    var fields := Split(s, '.');
    |fields| == 4 && forall f <- fields ::
      && 1 <= |f| <= 3 && (forall c <- f :: IsDigit(c))
      && (|f| > 1 ==> f[0] != '0') && Decimal(f) <= 255
  }

  predicate HasForbidden(s: string) {
    exists c <- s :: c in "/:*? \t\r\n"
  }

  predicate ValidRPID(s: string) {
    && s != "" && |s| <= 253 && !HasForbidden(s)
    && (IsIPv4(s) || AllValidLabels(Split(s, '.')))
  }

  method CheckRPID(rpId: string) returns (ok: bool)
    ensures ok == ValidRPID(rpId)
  {
    if rpId == "" || |rpId| > 253 || HasForbidden(rpId) {
      return false;
    }
    if IsIPv4(rpId) {
      return true;
    }
    var labels := Split(rpId, '.');
    var i := 0;
    while i < |labels|
      invariant 0 <= i <= |labels| && AllValidLabels(labels[..i])
    {
      var piece := labels[i];
      if piece == "" || |piece| > 63 || piece[0] == '-' || piece[|piece| - 1] == '-' {
        assert !ValidLabel(piece) && piece in labels;
        return false;
      }
      var j := 0;
      while j < |piece|
        invariant 0 <= j <= |piece|
        invariant forall c <- piece[..j] :: IsLetterOrDigit(c) || c == '-'
      {
        if !IsLetterOrDigit(piece[j]) && piece[j] != '-' {
          assert piece[j] in piece && !ValidLabel(piece) && piece in labels;
          return false;
        }
        j := j + 1;
      }
      assert piece[..j] == piece;
      i := i + 1;
    }
    assert labels[..i] == labels;
    return true;
  }

  lemma {:induction false} SplitChars(s: string, sep: char)
    ensures forall c <- s :: c == sep || exists p <- Split(s, sep) :: c in p
  {
    if s != [] {
      SplitChars(s[1..], sep);
      var rest, parts := Split(s[1..], sep), Split(s, sep);
      forall c | c in s && c != sep
        ensures exists p <- parts :: c in p
      {
        if c == s[0] {
          assert c in parts[0] && parts[0] in parts;
        } else {
          assert c in s[1..];
          var p :| p in rest && c in p;
          var k :| 0 <= k < |rest| && rest[k] == p;
          var q := if s[0] == sep then parts[k + 1] else parts[k];
          assert q in parts && c in q;
        }
      }
    }
  }

  /** The special case for addresses admits nothing that the rule for labels would not. */
  lemma AddressesAreHostNames(s: string)
    ensures IsIPv4(s) ==> AllValidLabels(Split(s, '.'))
  {
    if IsIPv4(s) {
      forall f | f in Split(s, '.')
        ensures ValidLabel(f)
      {
        assert f[0] in f && f[|f| - 1] in f;
      }
    }
  }

  lemma ValidHasHostChars(s: string)
    requires ValidRPID(s)
    ensures forall c <- s :: IsHostChar(c)
  {
    SplitChars(s, '.');
    AddressesAreHostNames(s);
    forall c | c in s
      ensures IsHostChar(c)
    {
      if c != '.' {
        var p :| p in Split(s, '.') && c in p;
        assert ValidLabel(p);
      }
    }
  }

  lemma ValidIsNormal(t: Text, s: string)
    requires t.Sane() && ValidRPID(s)
    ensures Normal(t, s) == s
  {
    ValidHasHostChars(s);
    assert s[0] in s && s[|s| - 1] in s;
    assert TrimLeft(t, s) == s && TrimRight(t, s) == s;
    forall i | 0 <= i < |s|
      ensures Lowered(t, s)[i] == s[i]
    {
      assert s[i] in s;
    }
  }

  // ---------------------------------------------------------------- what the names look like

  predicate IsInner(c: char) {
    'a' <= c <= 'z' || '0' <= c <= '9' || c == '-' || c == '.'
  }

  predicate IsEdge(c: char) {
    'a' <= c <= 'z' || '0' <= c <= '9'
  }

  /** There is a dot among the 64 characters from position `i` on. */
  ghost predicate DotFrom(s: string, i: nat) {
    exists k :: i <= k < i + 64 && k < |s| && s[k] == '.'
  }

  /** Letters, digits, hyphens and dots; letters or digits at both ends and on both sides of every dot; and no 64
      characters in a row without a dot. */
  ghost predicate Placed(s: string) {
    && s != "" && IsEdge(s[0]) && IsEdge(s[|s| - 1])
    && (forall i :: 0 <= i < |s| ==> IsInner(s[i]))
    && (forall i :: 0 < i < |s| - 1 && s[i] == '.' ==> IsEdge(s[i - 1]) && IsEdge(s[i + 1]))
    && (forall i: nat :: i <= |s| - 64 ==> DotFrom(s, i))
  }

  lemma PlacedChars(s: string)
    requires Placed(s)
    ensures forall c <- s :: IsInner(c)
  {
    forall c | c in s
      ensures IsInner(c)
    {
      var i :| 0 <= i < |s| && s[i] == c;
    }
  }

  lemma LongHasDot(p: string)
    requires Placed(p) && |p| >= 64
    ensures '.' in p
  {
    assert DotFrom(p, 0);
    var k :| 0 <= k < 64 && k < |p| && p[k] == '.';
    assert p[k] in p;
  }

  lemma LabelIsPlaced(p: string)
    requires '.' !in p
    ensures ValidLabel(p) <==> Placed(p)
  {
    if ValidLabel(p) {
      forall i | 0 <= i < |p|
        ensures IsInner(p[i])
      {
        assert p[i] in p;
      }
    }
    if Placed(p) {
      if |p| >= 64 {
        LongHasDot(p);
      }
      PlacedChars(p);
    }
  }

  lemma LeftPlaced(p: string, rest: string)
    requires '.' !in p && Placed(p + "." + rest)
    ensures Placed(p)
  {
    var s := p + "." + rest;
    assert s[|p|] == '.' && forall i :: 0 <= i < |p| ==> s[i] == p[i];
    forall i: nat | i <= |p| - 64
      ensures DotFrom(p, i)
    {
      assert DotFrom(s, i);
    }
  }

  lemma DotShifts(s: string, n: nat, i: nat)
    requires n <= |s| && DotFrom(s, n + i)
    ensures DotFrom(s[n..], i)
  {
    var k :| n + i <= k < n + i + 64 && k < |s| && s[k] == '.';
    assert s[n..][k - n] == '.';
  }

  lemma RightPlaced(p: string, rest: string)
    requires Placed(p + "." + rest)
    ensures Placed(rest)
  {
    var s, n := p + "." + rest, |p| + 1;
    assert s[n..] == rest && s[|p|] == '.';
    forall i: nat | i <= |rest| - 64
      ensures DotFrom(rest, i)
    {
      DotShifts(s, n, i);
    }
    forall i | 0 <= i < |rest|
      ensures s[n + i] == rest[i]
    {
    }
    hide DotFrom;
    forall i | 0 < i < |rest| - 1 && rest[i] == '.'
      ensures IsEdge(rest[i - 1]) && IsEdge(rest[i + 1])
    {
      assert s[n + i] == '.' && s[n + i - 1] == rest[i - 1] && s[n + i + 1] == rest[i + 1];
    }
  }

  lemma PartsPlaced(p: string, rest: string)
    requires '.' !in p && Placed(p) && Placed(rest)
    ensures Placed(p + "." + rest)
  {
    var s, n := p + "." + rest, |p| + 1;
    forall i | 0 <= i < |p|
      ensures s[i] == p[i] && s[i] != '.'
    {
      assert p[i] in p;
    }
    assert s[|p|] == '.' && forall i :: n <= i < |s| ==> s[i] == rest[i - n];
    if |p| >= 64 {
      LongHasDot(p);
    }
    forall i | 0 < i < |s| - 1 && s[i] == '.'
      ensures IsEdge(s[i - 1]) && IsEdge(s[i + 1])
    {
      if i > n {
        assert rest[i - n] == '.';
      }
    }
    forall i: nat | i <= |s| - 64
      ensures DotFrom(s, i)
    {
      if i > |p| {
        assert DotFrom(rest, i - n);
        var k :| i - n <= k < i - n + 64 && k < |rest| && rest[k] == '.';
        assert s[n + k] == '.';
      }
    }
  }

  lemma {:induction false} LabelsArePlaced(s: string)
    ensures AllValidLabels(Split(s, '.')) <==> Placed(s)
    decreases |s|
  {
    if '.' in s {
      var i := FirstDot(s);
      var p, rest := s[..i], s[i + 1..];
      assert s == p + ['.'] + rest && "." == ['.'];
      SplitPart(p, rest, '.');
      LabelsArePlaced(rest);
      LabelIsPlaced(p);
      LabelsOf(p, Split(rest, '.'));
      if Placed(s) {
        LeftPlaced(p, rest);
        RightPlaced(p, rest);
      }
      if Placed(p) && Placed(rest) {
        PartsPlaced(p, rest);
      }
    } else {
      SplitPart(s, "", '.');
      LabelIsPlaced(s);
      LabelsOf(s, []);
      assert [s] + [] == [s];
    }
  }

  lemma LabelsOf(p: string, labels: seq<string>)
    ensures AllValidLabels([p] + labels) <==> ValidLabel(p) && AllValidLabels(labels)
  {
    assert p in [p] + labels;
    assert forall l <- labels :: l in [p] + labels;
    hide ValidLabel;
  }

  function FirstDot(s: string): (i: nat)
    requires '.' in s
    ensures i < |s| && s[i] == '.' && '.' !in s[..i]
  {
    if s[0] == '.' then 0
    else
      assert s == [s[0]] + s[1..];
      var i := FirstDot(s[1..]);
      assert s[..i + 1] == [s[0]] + s[1..][..i];
      i + 1
  }

  /** Which names are accepted, read off their characters. */
  lemma AcceptedNames(s: string)
    ensures ValidRPID(s) <==> |s| <= 253 && Placed(s)
  {
    AddressesAreHostNames(s);
    LabelsArePlaced(s);
    if Placed(s) {
      PlacedChars(s);
    }
    hide ValidLabel, IsIPv4, AllValidLabels, Placed;
  }

  /** `s` is what `raw` means: some middle part of it, in lower case, with nothing but white space around it and none at
      its ends. */
  ghost predicate MeantBy(t: Text, raw: string, a: nat, b: nat, s: string) {
    && a <= b <= |raw| && |s| == b - a
    && (forall i :: 0 <= i < a || b <= i < |raw| ==> t.isSpace(raw[i]))
    && (a < b ==> !t.isSpace(raw[a]) && !t.isSpace(raw[b - 1]))
    && (forall i :: 0 <= i < |s| ==> s[i] == t.lower(raw[a + i]))
  }

  lemma {:induction false} TrimsLeft(t: Text, s: string)
    ensures var n := |s| - |TrimLeft(t, s)|;
            && 0 <= n && TrimLeft(t, s) == s[n..] && (forall i :: 0 <= i < n ==> t.isSpace(s[i]))
            && (n < |s| ==> !t.isSpace(s[n]))
  {
    if s != [] && t.isSpace(s[0]) {
      TrimsLeft(t, s[1..]);
      var n := |s| - |TrimLeft(t, s)|;
      assert s[1..][n - 1..] == s[n..];
      forall i | 0 <= i < n
        ensures t.isSpace(s[i])
      {
        assert i > 0 ==> s[i] == s[1..][i - 1];
      }
    }
  }

  lemma {:induction false} TrimsRight(t: Text, s: string)
    ensures var n := |TrimRight(t, s)|;
            && n <= |s| && TrimRight(t, s) == s[..n] && (forall i :: n <= i < |s| ==> t.isSpace(s[i]))
            && (n > 0 ==> !t.isSpace(s[n - 1]))
  {
    if s != [] && t.isSpace(s[|s| - 1]) {
      TrimsRight(t, s[..|s| - 1]);
    }
  }

  lemma NormalIsMeant(t: Text, raw: string)
    ensures exists a: nat, b: nat :: MeantBy(t, raw, a, b, Normal(t, raw))
  {
    var left := TrimLeft(t, raw);
    TrimsLeft(t, raw);
    TrimsRight(t, left);
    var a, n := |raw| - |left|, |TrimRight(t, left)|;
    MiddleIsMeant(t, raw, a, n);
    assert Normal(t, raw) == Lowered(t, raw[a..][..n]);
    hide *;
  }

  lemma MiddleIsMeant(t: Text, raw: string, a: nat, n: nat)
    requires a + n <= |raw| && forall i :: 0 <= i < a ==> t.isSpace(raw[i])
    requires a < |raw| ==> !t.isSpace(raw[a])
    requires forall i :: n <= i < |raw| - a ==> t.isSpace(raw[a..][i])
    requires n > 0 ==> !t.isSpace(raw[a..][n - 1])
    ensures MeantBy(t, raw, a, a + n, Lowered(t, raw[a..][..n]))
  {
    assert forall i :: a <= i < |raw| ==> raw[i] == raw[a..][i - a];
  }

  // ---------------------------------------------------------------- order

  /** Strings in byte order. */
  predicate Less(a: string, b: string) {
    if b == [] then false
    else if a == [] then true
    else a[0] < b[0] || (a[0] == b[0] && Less(a[1..], b[1..]))
  }

  lemma {:induction false} LessIsTotal(a: string, b: string)
    ensures Less(a, b) || a == b || Less(b, a)
    ensures !(Less(a, b) && Less(b, a)) && !Less(a, a)
    decreases |a| + |b|
  {
    LessIsIrreflexive(a);
    if a != [] && b != [] {
      LessIsTotal(a[1..], b[1..]);
      assert a == [a[0]] + a[1..] && b == [b[0]] + b[1..];
    }
  }

  lemma {:induction false} LessIsIrreflexive(a: string)
    ensures !Less(a, a)
  {
    if a != [] {
      LessIsIrreflexive(a[1..]);
    }
  }

  lemma {:induction false} LessIsTransitive(a: string, b: string, c: string)
    requires Less(a, b) && Less(b, c)
    ensures Less(a, c)
  {
    if a != [] && a[0] == b[0] == c[0] {
      LessIsTransitive(a[1..], b[1..], c[1..]);
    }
  }

  ghost predicate StrictlySorted(xs: seq<string>) {
    forall i, j :: 0 <= i < j < |xs| ==> Less(xs[i], xs[j])
  }

  /** A set has one strictly sorted listing only. */
  lemma {:induction false} SortedIsUnique(xs: seq<string>, ys: seq<string>)
    requires StrictlySorted(xs) && StrictlySorted(ys)
    requires forall s :: s in xs <==> s in ys
    ensures xs == ys
  {
    BothEmpty(xs, ys);
    if xs != [] {
      SameHead(xs, ys);
      forall s
        ensures s in xs[1..] <==> s in ys[1..]
      {
        TailMembers(xs, s);
        TailMembers(ys, s);
      }
      SortedIsUnique(xs[1..], ys[1..]);
      assert xs == [xs[0]] + xs[1..] && ys == [ys[0]] + ys[1..];
    }
  }

  lemma BothEmpty(xs: seq<string>, ys: seq<string>)
    requires forall s :: s in xs <==> s in ys
    ensures xs == [] <==> ys == []
  {
    if xs != [] {
      assert xs[0] in xs;
    }
    if ys != [] {
      assert ys[0] in ys;
    }
  }

  lemma TailMembers(xs: seq<string>, s: string)
    requires StrictlySorted(xs) && xs != []
    ensures s in xs[1..] <==> s in xs && s != xs[0]
  {
    LessIsTotal(xs[0], xs[0]);
    if s in xs[1..] {
      var k :| 0 <= k < |xs[1..]| && xs[1..][k] == s;
      assert Less(xs[0], xs[k + 1]);
    }
  }

  lemma SameHead(xs: seq<string>, ys: seq<string>)
    requires StrictlySorted(xs) && StrictlySorted(ys) && xs != [] && ys != []
    requires forall s :: s in xs <==> s in ys
    ensures xs[0] == ys[0]
  {
    assert xs[0] in ys && ys[0] in xs;
    var i :| 0 <= i < |ys| && ys[i] == xs[0];
    var j :| 0 <= j < |xs| && xs[j] == ys[0];
    LessIsTotal(xs[0], ys[0]);
  }

  function InsertSorted(xs: seq<string>, s: string): seq<string> {
    if xs == [] then [s]
    else if Less(xs[0], s) then [xs[0]] + InsertSorted(xs[1..], s)
    else [s] + xs
  }

  lemma {:induction false} InsertSortedKeepsOrder(xs: seq<string>, s: string)
    requires StrictlySorted(xs) && s !in xs
    ensures StrictlySorted(InsertSorted(xs, s))
    ensures forall x :: x in InsertSorted(xs, s) <==> x in xs || x == s
  {
    var ys := InsertSorted(xs, s);
    if xs != [] {
      var rest := InsertSorted(xs[1..], s);
      LessIsTotal(xs[0], s);
      assert xs[0] in xs;
      if Less(xs[0], s) {
        InsertSortedKeepsOrder(xs[1..], s);
        forall i, j | 0 <= i < j < |ys|
          ensures Less(ys[i], ys[j])
        {
          assert ys[j] == rest[j - 1] && ys[j] in rest;
          if i == 0 && ys[j] != s {
            var k :| 0 <= k < |xs[1..]| && xs[1..][k] == ys[j];
            assert Less(xs[0], xs[k + 1]);
          }
        }
        assert xs == [xs[0]] + xs[1..];
      } else {
        forall i, j | 0 <= i < j < |ys|
          ensures Less(ys[i], ys[j])
        {
          if i == 0 && j > 1 {
            LessIsTransitive(s, xs[0], xs[j - 1]);
          }
        }
      }
    }
  }

  /** Sorting a listing without repetitions. */
  method SortStrings(xs: seq<string>) returns (ys: seq<string>)
    requires forall i, j :: 0 <= i < j < |xs| ==> xs[i] != xs[j]
    ensures StrictlySorted(ys) && forall s :: s in ys <==> s in xs
  {
    ys := [];
    var i := 0;
    while i < |xs|
      invariant 0 <= i <= |xs| && StrictlySorted(ys)
      invariant forall s :: s in ys <==> s in xs[..i]
    {
      InsertSortedKeepsOrder(ys, xs[i]);
      ys := InsertSorted(ys, xs[i]);
      i := i + 1;
    }
    assert xs[..i] == xs;
  }

  // ---------------------------------------------------------------- configuration

  function Values(flags: seq<string>, environment: string): seq<string> {
    flags + Split(environment, ',')
  }

  /** The identifiers meant by some values: trimmed, in lower case, without blanks. */
  function Meant(t: Text, values: seq<string>): set<string> {
    set v <- values | Normal(t, v) != "" :: Normal(t, v)
  }

  ghost predicate AllValid(t: Text, values: seq<string>) {
    forall s <- Meant(t, values) :: ValidRPID(s)
  }

  /** `r` is the outcome for some values: nothing if one of them is invalid, else the sorted listing of those meant. */
  ghost predicate Configures(t: Text, values: seq<string>, r: Option<seq<string>>) {
    && (r.None? <==> !AllValid(t, values))
    && (r.Some? ==> StrictlySorted(r.value) && forall s :: s in r.value <==> s in Meant(t, values))
  }

  lemma MeantGrows(t: Text, values: seq<string>, i: nat)
    requires i < |values|
    ensures Meant(t, values[..i + 1]) ==
            Meant(t, values[..i]) + if Normal(t, values[i]) != "" then {Normal(t, values[i])} else {}
    ensures Normal(t, values[i]) != "" ==> Normal(t, values[i]) in Meant(t, values)
  {
    hide Normal;
    assert values[..i + 1] == values[..i] + [values[i]];
    assert values[i] in values;
  }

  /** The elements of a set, in no particular order. */
  method Listing(all: set<string>) returns (result: seq<string>)
    ensures forall s :: s in result <==> s in all
    ensures forall k, l :: 0 <= k < l < |result| ==> result[k] != result[l]
  {
    result := [];
    var todo := all;
    while todo != {}
      invariant todo <= all && forall s :: s in result <==> s in all - todo
      invariant forall k, l :: 0 <= k < l < |result| ==> result[k] != result[l]
      decreases |todo|
    {
      var s :| s in todo;
      assert s !in result;
      result := result + [s];
      todo := todo - {s};
    }
  }

  method ConfiguredRPIDs(t: Text, flags: seq<string>, environment: string) returns (r: Option<seq<string>>)
    ensures Configures(t, Values(flags, environment), r)
    ensures r.Some? ==> forall flag <- flags :: Normal(t, flag) != "" ==> Normal(t, flag) in r.value
  {
    hide Normal, Meant, ValidRPID;
    var values := flags + Split(environment, ',');
    var seen: set<string> := {};
    MeantNothing(t);
    var i := 0;
    while i < |values|
      invariant 0 <= i <= |values|
      invariant seen == Meant(t, values[..i]) && AllValid(t, values[..i])
    {
      var rpId := Normal(t, values[i]);
      MeantGrows(t, values, i);
      if rpId != "" {
        var ok := CheckRPID(rpId);
        if !ok {
          return None;
        }
        seen := seen + {rpId};
      }
      i := i + 1;
    }
    assert values[..i] == values;
    AllMeant(t, values);
    assert forall flag <- flags :: flag in values;
    var result := Listing(seen);
    result := SortStrings(result);
    r := Some(result);
  }

  lemma AllMeant(t: Text, values: seq<string>)
    ensures forall v <- values :: Normal(t, v) != "" ==> Normal(t, v) in Meant(t, values)
  {
    hide Normal;
  }

  lemma MeantNothing(t: Text)
    ensures Meant(t, []) == {}
  {
  }

  /** The outcome depends on which identifiers are meant only: not on their order, repetition, spelling or origin. */
  lemma ConfigurationIsCanonical(t: Text, values: seq<string>, values': seq<string>,
                                 r: Option<seq<string>>, r': Option<seq<string>>)
    requires Configures(t, values, r) && Configures(t, values', r')
    requires Meant(t, values) == Meant(t, values')
    ensures r == r'
  {
    if r.Some? {
      SortedIsUnique(r.value, r'.value);
    }
  }

  /** Joining a result with commas and reading it back as the environment gives the same result. */
  lemma ConfigurationIsStable(t: Text, values: seq<string>, ids: seq<string>, r: Option<seq<string>>)
    requires t.Sane()
    requires Configures(t, values, Some(ids)) && Configures(t, Values([], Join(ids, ',')), r)
    ensures r == Some(ids)
  {
    var again := Values([], Join(ids, ','));
    forall s | s in ids
      ensures Normal(t, s) == s && s != "" && ',' !in s
    {
      ValidIsNormal(t, s);
      ValidHasHostChars(s);
    }
    if ids == [] {
      assert again == [""];
      assert Normal(t, "") == "";
    } else {
      SplitJoin(ids, ',');
      assert again == ids;
    }
    assert Meant(t, again) == Meant(t, values);
    ConfigurationIsCanonical(t, values, again, Some(ids), r);
  }
}
