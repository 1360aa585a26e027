/** Names of stored pieces (base/gfsppieceop/piece_op.go:16-41, 87-133). */
module PieceKeys {
  import opened FixedWidth
  import opened Text

  const MAX_U32: nat := 0xFFFF_FFFF

  function VersionSuffix(version: int): string {
    if version == 0 then "" else "_v" + Signed(version)
  }

  function SegmentKey(objectId: nat, segment: nat, version: int): string {
    "s" + Decimal(objectId) + "_s" + Decimal(segment) + VersionSuffix(version)
  }

  function ECKey(objectId: nat, segment: nat, redundancy: nat, version: int): string {
    "e" + Decimal(objectId) + "_s" + Decimal(segment) + "_p" + Decimal(redundancy) + VersionSuffix(version)
  }

  function ChallengeKey(objectId: nat, segment: nat, redundancy: int, version: int): string {
    if redundancy < 0 then SegmentKey(objectId, segment, version) else ECKey(objectId, segment, redundancy, version)
  }

  // ----- parsing -----

  /** A parser's answer; Panic is an index out of range, which only malformed keys reach. */
  datatype Parsed<T> = Ok(value: T) | Invalid | Panic

  /** The number behind a one-character prefix. */
  function PrefixedUint(part: string): Parsed<nat> {
    if part == "" then Panic
    else
      var v := ParseUint(part[1..], MAX_U32);
      if v.Some? then Ok(v.value) else Invalid
  }

  function ParseSegmentIdx(key: string): Parsed<nat> {
    var parts := Split(key, '_');
    if |parts| != 2 && |parts| != 3 then Invalid else PrefixedUint(parts[1])
  }

  function ParseECIdx(key: string): Parsed<(nat, int)> {
    var parts := Split(key, '_');
    if |parts| != 3 && |parts| != 4 then Invalid
    else
      match PrefixedUint(parts[1])
      case Invalid => Invalid
      case Panic => Panic
      case Ok(segment) =>
        if parts[2] == "" then Panic
        else
          var r := ParseInt(parts[2][1..], MAX_I32 as nat);
          if r.Some? then Ok((segment, r.value)) else Invalid
  }

  function ParseChallengeIdx(key: string): Parsed<(nat, int)> {
    var first := Split(key, '_')[0];
    if first == "" then Panic
    else if first[0] == 'e' then ParseECIdx(key)
    else if first[0] == 's' then
      match ParseSegmentIdx(key)
      case Invalid => Invalid
      case Panic => Panic
      case Ok(segment) => Ok((segment, -1))
    else Invalid
  }

  // ----- the parts of a printed key -----

  function VersionParts(version: int): seq<string> {
    if version == 0 then [] else ["v" + Signed(version)]
  }

  function SegmentParts(objectId: nat, segment: nat, version: int): seq<string> {
    ["s" + Decimal(objectId), "s" + Decimal(segment)] + VersionParts(version)
  }

  function ECParts(objectId: nat, segment: nat, redundancy: nat, version: int): seq<string> {
    ["e" + Decimal(objectId), "s" + Decimal(segment), "p" + Decimal(redundancy)] + VersionParts(version)
  }

  lemma NoUnderscore(n: nat, prefix: char)
    requires prefix != '_'
    ensures '_' !in [prefix] + Decimal(n)
  {
    var s := [prefix] + Decimal(n);
    assert forall i :: 1 <= i < |s| ==> s[i] == Decimal(n)[i - 1] && IsDigit(s[i]);
  }

  lemma NoUnderscoreInVersion(version: int)
    ensures '_' !in "v" + Signed(version)
  {
    if version < 0 {
      NoUnderscore(-version, '-');
      assert Signed(version) == ['-'] + Decimal(-version);
    } else {
      NoUnderscore(version, 'v');
    }
  }

  /** What follows a part in a key: nothing, or an underscore and the remaining parts. */
  lemma TailSplits(head: string, version: int)
    requires '_' !in head
    ensures Split(head + VersionSuffix(version), '_') == [head] + VersionParts(version)
  {
    if version == 0 {
      assert head + "" == head;
      SplitWhole(head, '_');
    } else {
      var v := "v" + Signed(version);
      assert head + VersionSuffix(version) == head + ['_'] + v;
      NoUnderscoreInVersion(version);
      SplitFirst(head, v, '_');
      SplitWhole(v, '_');
    }
  }

  /** Splitting a segment key gives back its parts. */
  lemma SegmentKeySplits(objectId: nat, segment: nat, version: int)
    ensures Split(SegmentKey(objectId, segment, version), '_') == SegmentParts(objectId, segment, version)
  {
    hide Decimal, Split, VersionSuffix;
    var a, b := "s" + Decimal(objectId), "s" + Decimal(segment);
    NoUnderscore(objectId, 's');
    NoUnderscore(segment, 's');
    assert SegmentKey(objectId, segment, version) == a + ['_'] + (b + VersionSuffix(version));
    SplitFirst(a, b + VersionSuffix(version), '_');
    TailSplits(b, version);
    assert [a] + ([b] + VersionParts(version)) == SegmentParts(objectId, segment, version);
  }

  lemma ECKeySplits(objectId: nat, segment: nat, redundancy: nat, version: int)
    ensures Split(ECKey(objectId, segment, redundancy, version), '_') == ECParts(objectId, segment, redundancy, version)
  {
    hide Decimal, Split, VersionSuffix;
    var a, b, c := "e" + Decimal(objectId), "s" + Decimal(segment), "p" + Decimal(redundancy);
    NoUnderscore(objectId, 'e');
    NoUnderscore(segment, 's');
    NoUnderscore(redundancy, 'p');
    var tail := c + VersionSuffix(version);
    assert ECKey(objectId, segment, redundancy, version) == a + ['_'] + (b + ['_'] + tail);
    SplitFirst(a, b + ['_'] + tail, '_');
    SplitFirst(b, tail, '_');
    TailSplits(c, version);
    assert [a] + ([b] + ([c] + VersionParts(version))) == ECParts(objectId, segment, redundancy, version);
  }

  // ----- the format of the keys -----

  lemma JoinVersion(head: string, version: int)
    ensures head + VersionSuffix(version) == Join([head] + if version == 0 then [] else ["v" + Signed(version)], '_')
  {
    hide Signed;
    if version != 0 {
      JoinFront(head, ["v" + Signed(version)], '_');
    }
  }

  /** A segment key is the object, the segment and the version unless it is zero, each behind its letter and
      with underscores between them. */
  lemma SegmentKeyFormat(objectId: nat, segment: nat, version: int)
    ensures SegmentKey(objectId, segment, version) ==
            Join(["s" + Decimal(objectId), "s" + Decimal(segment)] + if version == 0 then [] else ["v" + Signed(version)], '_')
  {
    hide Decimal, Signed, Join, VersionSuffix;
    var a, b, v := "s" + Decimal(objectId), "s" + Decimal(segment), if version == 0 then [] else ["v" + Signed(version)];
    JoinVersion(b, version);
    JoinFront(a, [b] + v, '_');
    assert [a] + ([b] + v) == [a, b] + v;
    assert SegmentKey(objectId, segment, version) == a + ['_'] + (b + VersionSuffix(version));
  }

  /** An erasure-coded key has the redundancy index besides. */
  lemma ECKeyFormat(objectId: nat, segment: nat, redundancy: nat, version: int)
    ensures ECKey(objectId, segment, redundancy, version) ==
            Join(["e" + Decimal(objectId), "s" + Decimal(segment), "p" + Decimal(redundancy)]
                 + if version == 0 then [] else ["v" + Signed(version)], '_')
  {
    hide Decimal, Signed, Join, VersionSuffix;
    var a, b, c := "e" + Decimal(objectId), "s" + Decimal(segment), "p" + Decimal(redundancy);
    var v := if version == 0 then [] else ["v" + Signed(version)];
    JoinVersion(c, version);
    JoinFront(b, [c] + v, '_');
    JoinFront(a, [b] + ([c] + v), '_');
    assert [a] + ([b] + ([c] + v)) == [a, b, c] + v;
    assert ECKey(objectId, segment, redundancy, version) == a + ['_'] + (b + ['_'] + (c + VersionSuffix(version)));
  }

  // ----- keys identify pieces -----

  lemma SameNumber(prefix: char, a: nat, b: nat)
    requires [prefix] + Decimal(a) == [prefix] + Decimal(b)
    ensures a == b
  {
    assert ([prefix] + Decimal(a))[1..] == Decimal(a) && ([prefix] + Decimal(b))[1..] == Decimal(b);
    DecimalIsInjective(a, b);
  }

  lemma SameVersion(a: int, b: int)
    requires VersionParts(a) == VersionParts(b)
    ensures a == b
  {
    if a != 0 && b != 0 {
      assert VersionParts(a)[0][1..] == Signed(a) && VersionParts(b)[0][1..] == Signed(b);
      SignedIsInjective(a, b);
    } else {
      assert |VersionParts(a)| == |VersionParts(b)|;
    }
  }

  /** Equal segment keys name the same object, segment and version. */
  lemma SegmentKeyIsInjective(o1: nat, s1: nat, v1: int, o2: nat, s2: nat, v2: int)
    requires SegmentKey(o1, s1, v1) == SegmentKey(o2, s2, v2)
    ensures o1 == o2 && s1 == s2 && v1 == v2
  {
    hide SegmentKey, Split, Decimal, VersionParts;
    SegmentKeySplits(o1, s1, v1);
    SegmentKeySplits(o2, s2, v2);
    var p, q := SegmentParts(o1, s1, v1), SegmentParts(o2, s2, v2);
    assert p[0] == q[0] && p[1] == q[1] && p[2..] == VersionParts(v1) && q[2..] == VersionParts(v2);
    SameNumber('s', o1, o2);
    SameNumber('s', s1, s2);
    SameVersion(v1, v2);
  }

  lemma ECKeyIsInjective(o1: nat, s1: nat, r1: nat, v1: int, o2: nat, s2: nat, r2: nat, v2: int)
    requires ECKey(o1, s1, r1, v1) == ECKey(o2, s2, r2, v2)
    ensures o1 == o2 && s1 == s2 && r1 == r2 && v1 == v2
  {
    hide ECKey, Split, Decimal, VersionParts;
    ECKeySplits(o1, s1, r1, v1);
    ECKeySplits(o2, s2, r2, v2);
    var p, q := ECParts(o1, s1, r1, v1), ECParts(o2, s2, r2, v2);
    assert p[0] == q[0] && p[1] == q[1] && p[2] == q[2] && p[3..] == VersionParts(v1) && q[3..] == VersionParts(v2);
    SameNumber('e', o1, o2);
    SameNumber('s', s1, s2);
    SameNumber('p', r1, r2);
    SameVersion(v1, v2);
  }

  lemma KeysNeverCollide(o1: nat, s1: nat, v1: int, o2: nat, s2: nat, r2: nat, v2: int)
    ensures SegmentKey(o1, s1, v1) != ECKey(o2, s2, r2, v2)
  {
    assert SegmentKey(o1, s1, v1)[0] == 's' && ECKey(o2, s2, r2, v2)[0] == 'e';
  }

  /** Two challenge keys are equal exactly when they name the same piece; all negative redundancy indexes
      name the segment itself. */
  lemma ChallengeKeyIdentifies(o1: nat, s1: nat, r1: int, v1: int, o2: nat, s2: nat, r2: int, v2: int)
    ensures ChallengeKey(o1, s1, r1, v1) == ChallengeKey(o2, s2, r2, v2) <==>
            o1 == o2 && s1 == s2 && v1 == v2 && (r1 == r2 || (r1 < 0 && r2 < 0))
  {
    hide SegmentKey, ECKey;
    if ChallengeKey(o1, s1, r1, v1) == ChallengeKey(o2, s2, r2, v2) {
      if r1 < 0 && r2 < 0 {
        SegmentKeyIsInjective(o1, s1, v1, o2, s2, v2);
      } else if r1 < 0 {
        KeysNeverCollide(o1, s1, v1, o2, s2, r2, v2);
      } else if r2 < 0 {
        KeysNeverCollide(o2, s2, v2, o1, s1, r1, v1);
      } else {
        ECKeyIsInjective(o1, s1, r1, v1, o2, s2, r2, v2);
      }
    }
  }

  // ----- printing and parsing -----

  lemma PrefixedDecimal(prefix: char, n: nat)
    ensures PrefixedUint([prefix] + Decimal(n)) == if n <= MAX_U32 then Ok(n) else Invalid
  {
    hide Value, Decimal;
    assert ([prefix] + Decimal(n))[1..] == Decimal(n);
    ValueOfDecimal(n);
  }

  lemma SegmentKeyParses(objectId: nat, segment: nat, version: int)
    requires segment <= MAX_U32
    ensures ParseSegmentIdx(SegmentKey(objectId, segment, version)) == Ok(segment)
  {
    hide SegmentKey, Split, Decimal, PrefixedUint;
    SegmentKeySplits(objectId, segment, version);
    PrefixedDecimal('s', segment);
  }

  /** An erasure-coded key parses back exactly when its redundancy index fits 31 bits. */
  lemma ECKeyParses(objectId: nat, segment: nat, redundancy: nat, version: int)
    requires segment <= MAX_U32
    ensures ParseECIdx(ECKey(objectId, segment, redundancy, version)) ==
            if redundancy <= MAX_I32 then Ok((segment, redundancy)) else Invalid
  {
    hide ECKey, Split, Decimal, PrefixedUint, ParseInt;
    ECKeySplits(objectId, segment, redundancy, version);
    PrefixedDecimal('s', segment);
    var part := "p" + Decimal(redundancy);
    assert part[1..] == Decimal(redundancy) == Signed(redundancy);
    ParseIntOfSigned(redundancy, MAX_I32 as nat);
  }

  /** Parsing a challenge key gives back the segment index and the redundancy index, every negative one
      as -1. */
  lemma ChallengeKeyRoundTrip(objectId: nat, segment: nat, redundancy: int, version: int)
    requires segment <= MAX_U32 && redundancy <= MAX_I32
    ensures ParseChallengeIdx(ChallengeKey(objectId, segment, redundancy, version)) ==
            Ok((segment, if redundancy < 0 then -1 else redundancy))
  {
    hide SegmentKey, ECKey, Split, Decimal, ParseSegmentIdx, ParseECIdx;
    if redundancy < 0 {
      SegmentKeySplits(objectId, segment, version);
      SegmentKeyParses(objectId, segment, version);
    } else {
      ECKeySplits(objectId, segment, redundancy, version);
      ECKeyParses(objectId, segment, redundancy, version);
    }
  }
}
