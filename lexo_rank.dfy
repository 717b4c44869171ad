/** MapLexoRank (FieldMapperUtils.cs, lines 164-199): a Jira LexoRank string
    "<bucket>|<rank>[:<sub-rank>]" decoded into a decimal, and the two dictionaries that cache the
    decodings for the lifetime of a migration run. Decimals are modelled as exact reals. */
module LexoRank {
  import opened Wrappers
  import opened Strings
  import opened MigrationModel

  /** decimal.MaxValue, returned for text that is not a LexoRank so that it sorts last. */
  const DecimalMaxValue: real := 79228162514264337593543950335.0

  predicate IsBase36Digit(c: char) {
    '0' <= c <= '9' || 'a' <= c <= 'z' || 'A' <= c <= 'Z'
  }

  predicate IsBase36Text(s: string) {
    forall i | 0 <= i < |s| :: IsBase36Digit(s[i])
  }

  /** The text between the '|' and the first ':' (or the end). */
  function RankText(s: string): string
    requires |s| >= 2
  {
    var body := s[2..];
    body[..IndexOf(body, ':')]
  }

  /** The text after the first ':' that follows the '|' ("" when there is no ':'). */
  function SubRankText(s: string): string
    requires |s| >= 2
  {
    var body := s[2..];
    var k := IndexOf(body, ':');
    if k < |body| then body[k + 1..] else ""
  }

  /** LexoRankRegex, ^[0-2]\|[0-9a-zA-Z]*(\:[0-9a-zA-Z]*)?$ : a bucket digit 0-2, '|', a rank of
      base-36 digits, and optionally ':' and a sub-rank of base-36 digits. */
  predicate MatchesLexoRankPattern(s: string) {
    && |s| >= 2 && '0' <= s[0] <= '2' && s[1] == '|'
    && IsBase36Text(RankText(s))
    && IsBase36Text(SubRankText(s))
  }

  /** s is spelled as the regular expression reads: a bucket digit, '|', the base-36 rank and,
      when sub is present, ':' and the base-36 sub-rank. */
  predicate SpelledAs(s: string, rank: string, sub: Option<string>) {
    && |s| >= 1 && '0' <= s[0] <= '2'
    && IsBase36Text(rank)
    && (sub.Some? ==> IsBase36Text(sub.value))
    && s == [s[0], '|'] + rank + (if sub.Some? then [':'] + sub.value else "")
  }

  /** The pattern holds exactly for the text the regular expression spells out, and then its rank
      and sub-rank are the ones RankText and SubRankText find. */
  lemma PatternMatchesRegex(s: string)
    ensures MatchesLexoRankPattern(s) <==> exists rank, sub :: SpelledAs(s, rank, sub)
    ensures forall rank, sub | SpelledAs(s, rank, sub) ::
      RankText(s) == rank && SubRankText(s) == (if sub.Some? then sub.value else "")
  {
    forall rank, sub | SpelledAs(s, rank, sub)
      ensures MatchesLexoRankPattern(s)
      ensures RankText(s) == rank && SubRankText(s) == (if sub.Some? then sub.value else "")
    {
      SpelledParts(s, rank, sub);
    }
    if MatchesLexoRankPattern(s) {
      var body := s[2..];
      var k := IndexOf(body, ':');
      var sub := if k < |body| then Some(SubRankText(s)) else None;
      if k < |body| {
        assert body == RankText(s) + [':'] + SubRankText(s);
      } else {
        assert body == RankText(s);
      }
      assert s == [s[0], '|'] + body;
      assert SpelledAs(s, RankText(s), sub);
    }
  }

  lemma SpelledParts(s: string, rank: string, sub: Option<string>)
    requires SpelledAs(s, rank, sub)
    ensures |s| >= 2 && RankText(s) == rank && SubRankText(s) == (if sub.Some? then sub.value else "")
    ensures MatchesLexoRankPattern(s)
  {
    var body := s[2..];
    assert body == rank + (if sub.Some? then [':'] + sub.value else "");
    Base36TextHasNoSeparator(rank);
    if sub.Some? {
      assert body == rank + [':'] + sub.value;
      IndexOfAfter(rank, ':', sub.value);
      assert body[|rank| + 1..] == sub.value;
    } else {
      IndexOfAbsent(rank, ':');
    }
  }

  lemma IndexOfAfter(x: string, c: char, y: string)
    requires forall i | 0 <= i < |x| :: x[i] != c
    ensures IndexOf(x + [c] + y, c) == |x|
    ensures (x + [c] + y)[..|x|] == x
  {
    var s := x + [c] + y;
    assert s[|x|] == c;
    assert forall i | 0 <= i < |x| :: s[i] == x[i];
  }

  lemma IndexOfAbsent(x: string, c: char)
    requires forall i | 0 <= i < |x| :: x[i] != c
    ensures IndexOf(x, c) == |x|
  {
  }

  /** lexoRank.Split(new[] {'|', ':'}, StringSplitOptions.RemoveEmptyEntries) */
  function LexoSplit(s: string): seq<string> {
    RemoveEmpty(SplitAny(s, {'|', ':'}))
  }

  function NonEmpty(t: string): seq<string> {
    if t == "" then [] else [t]
  }

  /** On a LexoRank, the split yields the bucket, then the rank and the sub-rank where they are not
      empty: an empty rank lets the sub-rank take its place. */
  lemma LexoSplitShape(s: string)
    requires MatchesLexoRankPattern(s)
    ensures LexoSplit(s) == [s[..1]] + NonEmpty(RankText(s)) + NonEmpty(SubRankText(s))
  {
    var rank := RankText(s);
    var sub := SubRankText(s);
    SplitAfterBucket(s);
    SplitBody(s);
    if IndexOf(s[2..], ':') < |s[2..]| {
      RemoveEmptyThree(s[..1], rank, sub);
    } else {
      RemoveEmptyTwo(s[..1], rank);
    }
  }

  /** The bucket is split off at the '|'. */
  lemma SplitAfterBucket(s: string)
    requires |s| >= 2 && s[0] !in {'|', ':'} && s[1] == '|'
    ensures SplitAny(s, {'|', ':'}) == [s[..1]] + SplitAny(s[2..], {'|', ':'})
  {
    assert s == s[..1] + ['|'] + s[2..];
    SplitAnyAtSeparator(s[..1], '|', s[2..], {'|', ':'});
  }

  lemma RemoveEmptyTwo(a: string, b: string)
    ensures RemoveEmpty([a, b]) == NonEmpty(a) + NonEmpty(b)
  {
    RemoveEmptyCons(b, []);
    RemoveEmptyCons(a, [b]);
  }

  lemma RemoveEmptyThree(a: string, b: string, c: string)
    ensures RemoveEmpty([a, b, c]) == NonEmpty(a) + NonEmpty(b) + NonEmpty(c)
  {
    RemoveEmptyTwo(b, c);
    RemoveEmptyCons(a, [b, c]);
  }

  /** The part after '|' splits into the rank and, after a ':', the sub-rank. */
  lemma SplitBody(s: string)
    requires MatchesLexoRankPattern(s)
    ensures var body := s[2..];
      SplitAny(body, {'|', ':'}) ==
        if IndexOf(body, ':') < |body| then [RankText(s), SubRankText(s)] else [RankText(s)]
    ensures IndexOf(s[2..], ':') == |s[2..]| ==> SubRankText(s) == ""
  {
    var seps := {'|', ':'};
    var body := s[2..];
    var rank := RankText(s);
    var sub := SubRankText(s);
    Base36TextHasNoSeparator(rank);
    Base36TextHasNoSeparator(sub);
    if IndexOf(body, ':') < |body| {
      assert body == rank + [':'] + sub;
      SplitAnyAtSeparator(rank, ':', sub, seps);
      SplitAnyNoSeparator(sub, seps);
    } else {
      assert body == rank;
      SplitAnyNoSeparator(rank, seps);
    }
  }

  lemma Base36TextHasNoSeparator(t: string)
    requires IsBase36Text(t)
    ensures forall i | 0 <= i < |t| :: t[i] !in {'|', ':'}
  {
  }

  lemma RemoveEmptyCons(x: string, rest: seq<string>)
    ensures RemoveEmpty([x] + rest) == NonEmpty(x) + RemoveEmpty(rest)
  {
    assert ([x] + rest)[1..] == rest;
  }

  /** The value of a base-36 digit, letters in either case. */
  function Base36DigitValue(c: char): (v: nat)
    requires IsBase36Digit(c)
    ensures v < 36
  {
    if '0' <= c <= '9' then (c - '0') as nat
    else if 'a' <= c <= 'z' then (c - 'a') as nat + 10
    else (c - 'A') as nat + 10
  }

  /** Base36.Decode, which is not part of this model: taken to be the standard positional value
      of the digits, most significant first. */
  function Base36Decode(s: string): nat
    requires IsBase36Text(s)
    decreases |s|
  {
    if s == [] then 0
    else 36 * Base36Decode(s[..|s| - 1]) + Base36DigitValue(s[|s| - 1])
  }

  function Pow(b: nat, e: nat): nat
    decreases e
  {
    if e == 0 then 1 else b * Pow(b, e - 1)
  }

  /** The number of digits of n written in decimal. */
  function DigitCount(n: nat): (d: nat)
    ensures d >= 1 && n < Pow(10, d)
    ensures n < 10 ==> d == 1
    ensures n >= 10 ==> Pow(10, d - 1) <= n
    decreases n
  {
    if n < 10 then 1 else 1 + DigitCount(n / 10)
  }

  /** Convert.ToDecimal($"{rank}.{subRank}", invariant culture): the decimal digits of the sub-rank
      become the fraction. */
  function DecimalOf(rank: nat, subRank: nat): real {
    rank as real + subRank as real / Pow(10, DigitCount(subRank)) as real
  }

  /** The decoding of lines 182-191: nothing when both rank and sub-rank are empty, the sub-rank as
      the rank when only the rank is empty, and otherwise "<rank>.<sub-rank>". */
  function DecodeLexoRank(s: string): (r: Result<real, Fault>)
    requires MatchesLexoRankPattern(s)
    ensures RankText(s) == "" && SubRankText(s) == "" ==> r == Err(IndexOutOfRange)
    ensures RankText(s) == "" && SubRankText(s) != "" ==> r == Ok(Base36Decode(SubRankText(s)) as real)
    ensures RankText(s) != "" ==>
      r == Ok(DecimalOf(Base36Decode(RankText(s)),
                        if SubRankText(s) == "" then 0 else Base36Decode(SubRankText(s))))
  {
    var lexoSplit := LexoSplit(s);
    LexoSplitShape(s);
    if |lexoSplit| < 2 then Err(IndexOutOfRange)
    else
      var b36Rank := Base36Decode(lexoSplit[1]);
      var b36SubRank := if |lexoSplit| == 3 && lexoSplit[2] != "" then Base36Decode(lexoSplit[2]) else 0;
      Ok(DecimalOf(b36Rank, b36SubRank))
  }

  /** The bucket digit does not take part in the value. */
  lemma DecodeIgnoresBucket(s: string, bucket: char)
    requires MatchesLexoRankPattern(s)
    requires '0' <= bucket <= '2'
    ensures MatchesLexoRankPattern([bucket] + s[1..])
    ensures DecodeLexoRank([bucket] + s[1..]) == DecodeLexoRank(s)
  {
    var t := [bucket] + s[1..];
    assert t[2..] == s[2..];
  }

  /** Sub-ranks are compared as decimal fractions of their values, so the different LexoRanks
      "0|a:1" and "0|a:a" both decode to 10.1. */
  lemma SubRankCollision()
    ensures MatchesLexoRankPattern("0|a:1") && MatchesLexoRankPattern("0|a:a")
    ensures DecodeLexoRank("0|a:1") == DecodeLexoRank("0|a:a") == Ok(10.1)
  {
    DecodesWithSubRank("0|a:1", '1', 1);
    DecodesWithSubRank("0|a:a", 'a', 10);
    TenPointOne();
  }

  lemma TenPointOne()
    ensures DecimalOf(10, 1) == DecimalOf(10, 10) == 10.1
  {
    assert DigitCount(1) == 1 && Pow(10, 1) == 10;
    assert DigitCount(10) == 1 + DigitCount(1) == 2;
    assert Pow(10, 2) == 10 * Pow(10, 1) == 100;
  }

  /** The pieces of "0|a:<digit>". */
  lemma DecodesWithSubRank(s: string, digit: char, value: nat)
    requires s == ['0', '|', 'a', ':', digit]
    requires IsBase36Digit(digit) && Base36DigitValue(digit) == value
    ensures MatchesLexoRankPattern(s)
    ensures DecodeLexoRank(s) == Ok(DecimalOf(10, value))
  {
    var body := s[2..];
    assert body == ['a', ':', digit];
    assert IndexOf(body, ':') == 1 by {
      assert body[0] != ':' && body[1..][0] == ':';
    }
    assert RankText(s) == "a" && SubRankText(s) == [digit];
    assert Base36Decode("a") == 10 by { assert "a"[..0] == ""; }
    assert Base36Decode([digit]) == value by { assert [digit][..0] == ""; }
  }

  lemma {:induction false} Base36Bound(s: string)
    requires IsBase36Text(s)
    ensures Base36Decode(s) < Pow(36, |s|)
    decreases |s|
  {
    if s != [] {
      Base36Bound(s[..|s| - 1]);
    }
  }

  lemma {:induction false} PowMonotonic(b: nat, e: nat, f: nat)
    requires b >= 1 && e <= f
    ensures Pow(b, e) <= Pow(b, f)
    decreases f
  {
    if e < f {
      PowMonotonic(b, e, f - 1);
      AtMostMultiple(b, Pow(b, f - 1));
    }
  }

  lemma AtMostMultiple(b: nat, p: nat)
    requires b >= 1
    ensures p <= b * p
  {
    assert b * p == p + (b - 1) * p;
  }

  /** The sentinel sorts after every decodable LexoRank of up to 14 characters (longer ones reach
      the limits of long and decimal, which this model does not represent). */
  lemma DecodedRankBelowSentinel(s: string)
    requires MatchesLexoRankPattern(s) && |s| <= 14
    ensures DecodeLexoRank(s).Ok? ==> DecodeLexoRank(s).value < DecimalMaxValue
  {
    var rank := if RankText(s) != "" then RankText(s) else SubRankText(s);
    var sub := if RankText(s) != "" && SubRankText(s) != "" then Base36Decode(SubRankText(s)) else 0;
    Base36Bound(rank);
    PowMonotonic(36, |rank|, 12);
    Pow36To12();
    FractionBelowOne(sub);
  }

  lemma Pow36To12()
    ensures Pow(36, 12) == 4738381338321616896
  {
    assert Pow(36, 3) == 46656;
    assert Pow(36, 6) == 2176782336 by {
      assert Pow(36, 6) == 36 * 36 * 36 * Pow(36, 3);
    }
    assert Pow(36, 9) == 101559956668416 by {
      assert Pow(36, 9) == 36 * 36 * 36 * Pow(36, 6);
    }
    assert Pow(36, 12) == 36 * 36 * 36 * Pow(36, 9);
  }

  /** The sub-rank's part of the value is a proper fraction. */
  lemma FractionBelowOne(subRank: nat)
    ensures 0.0 <= subRank as real / Pow(10, DigitCount(subRank)) as real < 1.0
  {
    ProperFraction(subRank as real, Pow(10, DigitCount(subRank)) as real);
  }

  lemma ProperFraction(x: real, d: real)
    requires 0.0 <= x < d
    ensures 0.0 <= x / d < 1.0
  {
    var q := x / d;
    assert q * d == x;
  }

  /** The two static dictionaries of FieldMapperUtils. */
  class LexoRankCache {
    var calculatedLexoRanks: map<string, real>
    var calculatedRanks: map<real, string>

    /** Every cached value is the decoding of its LexoRank, and the two dictionaries are inverse
        to each other. */
    ghost predicate Valid()
      reads this
    {
      && (forall s | s in calculatedLexoRanks ::
            && MatchesLexoRankPattern(s)
            && DecodeLexoRank(s) == Ok(calculatedLexoRanks[s])
            && calculatedLexoRanks[s] in calculatedRanks
            && calculatedRanks[calculatedLexoRanks[s]] == s)
      && (forall v | v in calculatedRanks ::
            calculatedRanks[v] in calculatedLexoRanks && calculatedLexoRanks[calculatedRanks[v]] == v)
    }

    constructor ()
      ensures Valid()
      ensures calculatedLexoRanks == map[] && calculatedRanks == map[]
    {
      calculatedLexoRanks := map[];
      calculatedRanks := map[];
    }

    /** MapLexoRank. The result is the decimal or the exception thrown; warnings are the messages
        logged. A LexoRank followed by a line feed is excluded: .NET's '$' also matches before a
        final line feed, so the pattern accepts it and Base36.Decode is given the line feed. */
    method MapLexoRank(lexoRank: Option<string>) returns (r: Result<real, Fault>, warnings: seq<Warning>)
      requires Valid()
      requires lexoRank.Some? && lexoRank.value != "" && lexoRank.value[|lexoRank.value| - 1] == '\n' ==>
        !MatchesLexoRankPattern(lexoRank.value[..|lexoRank.value| - 1])
      modifies this
      ensures Valid()
      ensures IsNullOrEmpty(lexoRank) || !MatchesLexoRankPattern(lexoRank.value) ==>
        r == Ok(DecimalMaxValue) && warnings == [] && unchanged(this)
      ensures lexoRank.Some? && lexoRank.value in old(calculatedLexoRanks) ==>
        r == Ok(old(calculatedLexoRanks)[lexoRank.value]) && warnings == [DuplicateRank] && unchanged(this)
      ensures lexoRank.Some? && MatchesLexoRankPattern(lexoRank.value) && lexoRank.value !in old(calculatedLexoRanks) ==>
        match DecodeLexoRank(lexoRank.value)
        case Err(e) => r == Err(e) && warnings == [] && unchanged(this)
        case Ok(v) =>
          if v in old(calculatedRanks) then
            r == Err(DuplicateKey) && warnings == [DuplicateRankForDifferentValues] && unchanged(this)
          else
            && r == Ok(v) && warnings == []
            && calculatedLexoRanks == old(calculatedLexoRanks)[lexoRank.value := v]
            && calculatedRanks == old(calculatedRanks)[v := lexoRank.value]
      ensures r.Ok? && lexoRank.Some? && MatchesLexoRankPattern(lexoRank.value) ==>
        r == DecodeLexoRank(lexoRank.value)
    {
      if IsNullOrEmpty(lexoRank) || !MatchesLexoRankPattern(lexoRank.value) {
        return Ok(DecimalMaxValue), [];
      }
      var s := lexoRank.value;
      if s in calculatedLexoRanks {
        return Ok(calculatedLexoRanks[s]), [DuplicateRank];
      }
      var decoded := DecodeLexoRank(s);
      if decoded.Err? {
        return Err(decoded.error), [];
      }
      var rank := decoded.value;
      warnings := [];
      if rank in calculatedRanks && calculatedRanks[rank] != s {
        warnings := [DuplicateRankForDifferentValues];
      }
      if rank in calculatedRanks {
        // Dictionary.Add throws on a key it already holds; neither dictionary has changed.
        return Err(DuplicateKey), warnings;
      }
      calculatedRanks := calculatedRanks[rank := s];
      calculatedLexoRanks := calculatedLexoRanks[s := rank];
      r := Ok(rank);
    }
  }
}
