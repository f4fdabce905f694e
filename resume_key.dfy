/** The textual grouping key of the duplicate cleanup: a resume is filed
    under `jobId + "-" + ownerId` and the key is later cut apart again with
    `split("-")` and `Long.parseLong`. This module models those three Java
    operations on the non-negative range of `long` and proves that the key
    round-trips, so that grouping by the string is grouping by the pair. */
module ResumeKey {
  import opened Wrappers

  /** Largest value of a Java `long`. */
  const MAX_LONG: int := 0x7fff_ffff_ffff_ffff
  /** Smallest value of a Java `long`. */
  const MIN_LONG: int := -0x8000_0000_0000_0000

  /** A database identity: a non-negative Java `long`. */
  type LongId = n: int | 0 <= n <= MAX_LONG

  predicate IsDigit(c: char) { '0' <= c <= '9' }

  predicate AllDigits(s: string) { forall i :: 0 <= i < |s| ==> IsDigit(s[i]) }

  function DigitChar(d: nat): (c: char)
    requires d < 10
    ensures IsDigit(c) && (c as int) - ('0' as int) == d
  {
    (('0' as int) + d) as char
  }

  /** Decimal rendering of a non-negative number, as `Long.toString` and
      string concatenation produce it (no sign, no leading zeros). */
  function NatToString(n: nat): (s: string)
    ensures |s| >= 1 && AllDigits(s)
    ensures |s| > 1 ==> s[0] != '0'
    decreases n
  {
    if n < 10 then [DigitChar(n)] else NatToString(n / 10) + [DigitChar(n % 10)]
  }

  /** The value of a non-empty string of decimal digits. */
  function DigitsValue(s: string): nat
    requires |s| >= 1 && AllDigits(s)
    decreases |s|
  {
    var last := (s[|s| - 1] as int) - ('0' as int);
    if |s| == 1 then last else DigitsValue(s[..|s| - 1]) * 10 + last
  }

  /** `Long.parseLong` on ASCII text: an optional sign followed by at least
      one ASCII decimal digit, the value within the range of `long`; anything
      else raises NumberFormatException, modelled as None. (Java also accepts
      the other Unicode decimal digits; this model does not.) */
  function ParseLong(s: string): (r: Option<int>)
    ensures r.Some? ==> MIN_LONG <= r.value <= MAX_LONG
    ensures s == [] ==> r.None?
    ensures |s| >= 1 && AllDigits(s) && DigitsValue(s) <= MAX_LONG ==> r == Some(DigitsValue(s))
  {
    if s == [] then None
    else
      var negative := s[0] == '-';
      var digits := if s[0] == '-' || s[0] == '+' then s[1..] else s;
      if digits == [] || !AllDigits(digits) then None
      else
        var magnitude: int := DigitsValue(digits);
        var v := if negative then 0 - magnitude else magnitude;
        if MIN_LONG <= v <= MAX_LONG then Some(v) else None
  }

  /** The pieces of a split put back together, one separator between two
      neighbouring pieces. */
  function Join(parts: seq<string>, sep: char): string
    requires |parts| >= 1
    decreases |parts|
  {
    if |parts| == 1 then parts[0] else parts[0] + [sep] + Join(parts[1..], sep)
  }

  /** Every piece of `s` between occurrences of `sep`, including empty ones. */
  function SplitAll(s: string, sep: char): (parts: seq<string>)
    ensures |parts| >= 1
    ensures forall i :: 0 <= i < |parts| ==> sep !in parts[i]
    ensures Join(parts, sep) == s
    decreases |s|
  {
    if s == [] then [[]]
    else
      var rest := SplitAll(s[1..], sep);
      if s[0] == sep then
        assert [sep] + s[1..] == s;
        [[]] + rest
      else
        var parts := [[s[0]] + rest[0]] + rest[1..];
        assert parts[1..] == rest[1..];
        assert Join(parts, sep) == [s[0]] + Join(rest, sep);
        assert [s[0]] + s[1..] == s;
        parts
  }

  /** Drops the empty strings at the end of a split result. */
  function DropTrailingEmpty(parts: seq<string>): (r: seq<string>)
    ensures |r| <= |parts| && r == parts[..|r|]
    ensures forall i :: |r| <= i < |parts| ==> parts[i] == []
    ensures r != [] ==> r[|r| - 1] != []
    decreases |parts|
  {
    if parts != [] && parts[|parts| - 1] == [] then DropTrailingEmpty(parts[..|parts| - 1]) else parts
  }

  /** `String.split` with limit 0 and a single-character separator that is
      not a regular-expression metacharacter, such as `-`: the string itself
      when the separator does not occur, otherwise the pieces with trailing
      empty pieces removed. */
  function JavaSplit(s: string, sep: char): (parts: seq<string>)
    ensures sep !in s ==> parts == [s]
    ensures forall i :: 0 <= i < |parts| ==> sep !in parts[i]
    ensures sep in s ==> parts == [] || parts[|parts| - 1] != []
    ensures |parts| <= |SplitAll(s, sep)| && parts == SplitAll(s, sep)[..|parts|]
    ensures forall i :: |parts| <= i < |SplitAll(s, sep)| ==> SplitAll(s, sep)[i] == []
  {
    if sep !in s then
      SplitAllNoSep(s, sep);
      [s]
    else
      DropTrailingEmpty(SplitAll(s, sep))
  }

  /** The grouping key of a (job id, owner id) pair. */
  function KeyString(jobId: LongId, ownerId: LongId): (k: string)
    ensures |k| == |NatToString(jobId)| + 1 + |NatToString(ownerId)|
    ensures forall i :: 0 <= i < |k| ==> (k[i] == '-' <==> i == |NatToString(jobId)|)
    ensures k[..|NatToString(jobId)|] == NatToString(jobId)
    ensures k[|NatToString(jobId)| + 1..] == NatToString(ownerId)
  {
    NatToString(jobId) + "-" + NatToString(ownerId)
  }

  /** Parsing the rendering of a number gives the number back. */
  lemma {:induction false} DigitsOfNat(n: nat)
    ensures DigitsValue(NatToString(n)) == n
    decreases n
  {
    if n >= 10 {
      DigitsOfNat(n / 10);
      var s := NatToString(n);
      assert s[..|s| - 1] == NatToString(n / 10);
    }
  }

  /** `Long.parseLong(Long.toString(n)) == n` for every non-negative long. */
  lemma ParseLongOfNat(n: LongId)
    ensures ParseLong(NatToString(n)) == Some(n)
  {
    DigitsOfNat(n);
  }

  /** A string without the separator is a single piece. */
  lemma {:induction false} SplitAllNoSep(t: string, sep: char)
    requires sep !in t
    ensures SplitAll(t, sep) == [t]
    decreases |t|
  {
    if t != [] {
      SplitAllNoSep(t[1..], sep);
      assert [t[0]] + t[1..] == t;
    }
  }

  /** Splitting `t + [sep] + u` where `t` has no separator yields `t` first. */
  lemma {:induction false} SplitAllAt(t: string, sep: char, u: string)
    requires sep !in t
    ensures SplitAll(t + [sep] + u, sep) == [t] + SplitAll(u, sep)
    decreases |t|
  {
    var s := t + [sep] + u;
    if t == [] {
      assert s[0] == sep && s[1..] == u;
    } else {
      var tail := t[1..] + [sep] + u;
      assert s[0] == t[0] && s[1..] == tail;
      SplitAllAt(t[1..], sep, u);
      var rest := SplitAll(tail, sep);
      assert rest == [t[1..]] + SplitAll(u, sep);
      assert [t[0]] + t[1..] == t;
      assert SplitAll(s, sep) == [[t[0]] + rest[0]] + rest[1..];
    }
  }

  /** A digit string contains no separator. */
  lemma DigitsHaveNoDash(s: string)
    requires AllDigits(s)
    ensures '-' !in s
  {
  }

  /** The key splits back into exactly two parts which parse to the job id
      and the owner id (the statistics step of the cleanup relies on it). */
  lemma KeyRoundTrip(jobId: LongId, ownerId: LongId)
    ensures var parts := JavaSplit(KeyString(jobId, ownerId), '-');
      |parts| == 2 && ParseLong(parts[0]) == Some(jobId) && ParseLong(parts[1]) == Some(ownerId)
  {
    var a, b := NatToString(jobId), NatToString(ownerId);
    DigitsHaveNoDash(a);
    DigitsHaveNoDash(b);
    SplitAllAt(a, '-', b);
    SplitAllNoSep(b, '-');
    assert KeyString(jobId, ownerId) == a + ['-'] + b;
    assert KeyString(jobId, ownerId)[|a|] == '-';
    assert SplitAll(KeyString(jobId, ownerId), '-') == [a, b];
    ParseLongOfNat(jobId);
    ParseLongOfNat(ownerId);
  }

  /** Distinct pairs get distinct keys, so the string-keyed map of the
      source groups records exactly by (job id, owner id). */
  lemma KeyInjective(j1: LongId, o1: LongId, j2: LongId, o2: LongId)
    requires KeyString(j1, o1) == KeyString(j2, o2)
    ensures j1 == j2 && o1 == o2
  {
    KeyRoundTrip(j1, o1);
    KeyRoundTrip(j2, o2);
  }
}
