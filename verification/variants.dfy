/** A parsed VCF variant record (the fixed fields CHROM, POS, REF and ALT
    and the per-sample GT field of VCF v4.2, sections 1.4.1 and 1.4.2), the
    bi-allelic SNP test, the allele tally with the frequency threshold, and
    the feature key both scripts give a site. */
module Variants {
  import opened Text
  import opened Results

  /** One allele of a genotype call: an index into REF/ALT (0 is the
      reference) or the missing marker `.`. */
  datatype Allele = Idx(index: nat) | Missing

  /** A diploid genotype call. */
  datatype Call = Call(first: Allele, second: Allele)

  /** The ALT column as the parser delivers it: a fixed number of slots,
      at least one, unused slots holding the empty string. */
  type AltSlots = s: seq<string> | |s| >= 1 witness [""]

  datatype Record = Record(chrom: string, pos: nat, ref: string, alts: AltSlots, calls: seq<Call>)

  /** The genotype array is rectangular: every record carries one call per
      sample named in the header. */
  predicate WellFormed(samples: seq<string>, records: seq<Record>) {
    forall i :: 0 <= i < |records| ==> |records[i].calls| == |samples|
  }

  /** Python's `any(slots)` over strings: some slot is non-empty. */
  function AnyNonEmpty(slots: seq<string>): (b: bool)
    ensures b <==> exists k :: 0 <= k < |slots| && slots[k] != ""
    decreases |slots|
  {
    if |slots| == 0 then false
    else slots[0] != "" || AnyNonEmpty(slots[1..])
  }

  /** The SNP test of the filtering script: a one-base REF, a one-base first
      ALT, and nothing in any later ALT slot. */
  predicate IsSnpCandidate(r: Record): (ok: bool)
    ensures ok <==>
      && |r.ref| == 1
      && |r.alts[0]| == 1
      && forall k :: 1 <= k < |r.alts| ==> r.alts[k] == ""
  {
    assert forall k :: 1 <= k < |r.alts| ==> r.alts[k] == r.alts[1..][k - 1];
    |r.ref| == 1 && |r.alts[0]| == 1 && !AnyNonEmpty(r.alts[1..])
  }

  /** How many of the call's two alleles are allele `k`. */
  function Hits(c: Call, k: nat): nat {
    (if c.first == Idx(k) then 1 else 0) + (if c.second == Idx(k) then 1 else 0)
  }

  /** The tally of allele `k` over all calls of a site, as the allele-count
      array holds it: missing alleles and other indices count for nothing. */
  function AlleleCount(calls: seq<Call>, k: nat): (n: nat)
    ensures n <= 2 * |calls|
    decreases |calls|
  {
    if |calls| == 0 then 0
    else AlleleCount(calls[..|calls| - 1], k) + Hits(calls[|calls| - 1], k)
  }

  /** Tallies add up over concatenated call lists. */
  lemma {:induction false} AlleleCountAppend(a: seq<Call>, b: seq<Call>, k: nat)
    ensures AlleleCount(a + b, k) == AlleleCount(a, k) + AlleleCount(b, k)
    decreases |b|
  {
    if |b| > 0 {
      assert (a + b)[..|a + b| - 1] == a + b[..|b| - 1];
      AlleleCountAppend(a, b[..|b| - 1], k);
    } else {
      assert a + b == a;
    }
  }

  /** The tally counts exactly the alleles equal to `Idx(k)`: a site none of
      whose calls mention allele `k` tallies zero. */
  lemma {:induction false} AlleleCountZero(calls: seq<Call>, k: nat)
    requires forall i :: 0 <= i < |calls| ==> calls[i].first != Idx(k) && calls[i].second != Idx(k)
    ensures AlleleCount(calls, k) == 0
    decreases |calls|
  {
    if |calls| > 0 {
      AlleleCountZero(calls[..|calls| - 1], k);
    }
  }

  /** The default `freq_thresh` of the filtering script. */
  const DefaultThreshold: real := 0.30

  /** `n_alt / (n_ref + n_alt) > thresh`, with exact division. With no
      observed reference or first-alternate allele the quotient is NaN and
      the comparison is false. */
  predicate FrequencyPasses(nRef: nat, nAlt: nat, thresh: real) {
    nRef + nAlt > 0 && (nAlt as real) / ((nRef + nAlt) as real) > thresh
  }

  /** The threshold test without division. */
  lemma FrequencyCrossMultiplied(nRef: nat, nAlt: nat, thresh: real)
    ensures FrequencyPasses(nRef, nAlt, thresh) <==>
      nRef + nAlt > 0 && (nAlt as real) > thresh * ((nRef + nAlt) as real)
  {
    if nRef + nAlt > 0 {
      var total := (nRef + nAlt) as real;
      var q := (nAlt as real) / total;
      assert q * total == nAlt as real;
      if q > thresh {
        assert q * total > thresh * total;
      }
      if nAlt as real > thresh * total {
        assert q * total > thresh * total;
      }
    }
  }

  /** At the default threshold the test is `10 * n_alt > 3 * (n_ref + n_alt)`,
      so a site at exactly 30% is dropped. */
  lemma DefaultThresholdInIntegers(nRef: nat, nAlt: nat)
    ensures FrequencyPasses(nRef, nAlt, DefaultThreshold) <==> 10 * nAlt > 3 * (nRef + nAlt)
  {
    FrequencyCrossMultiplied(nRef, nAlt, DefaultThreshold);
    assert DefaultThreshold * ((nRef + nAlt) as real) == (3 * (nRef + nAlt)) as real / 10.0;
  }

  /** A record the filtering script keeps: an SNP candidate whose first
      alternate allele is frequent enough. */
  predicate Retained(r: Record, thresh: real) {
    && IsSnpCandidate(r)
    && FrequencyPasses(AlleleCount(r.calls, 0), AlleleCount(r.calls, 1), thresh)
  }

  /** A site where no call shows allele 0 or 1 (all missing, say) is never
      kept, whatever the threshold. */
  lemma UnobservedSiteNeverRetained(r: Record, thresh: real)
    requires forall i :: 0 <= i < |r.calls| ==>
      && r.calls[i].first != Idx(0) && r.calls[i].second != Idx(0)
      && r.calls[i].first != Idx(1) && r.calls[i].second != Idx(1)
    ensures !Retained(r, thresh)
  {
    AlleleCountZero(r.calls, 0);
    AlleleCountZero(r.calls, 1);
  }

  /** `'{}-{}-{}-{}'.format(CHROM, POS, REF, ALT[0])`. */
  function FeatureKey(r: Record): string {
    r.chrom + "-" + NatToString(r.pos) + "-" + r.ref + "-" + r.alts[0]
  }

  datatype KeyFields = KeyFields(chrom: string, pos: nat, ref: string, alt: string)

  /** Reads a feature key back into its four fields. */
  function ParseFeatureKey(key: string): Option<KeyFields> {
    var parts := Split(key, '-');
    if |parts| == 4 && |parts[1]| >= 1 && forall i :: 0 <= i < |parts[1]| ==> IsDigit(parts[1][i])
    then Some(KeyFields(parts[0], ParseDigits(parts[1]), parts[2], parts[3]))
    else None
  }

  /** When CHROM, REF and ALT[0] hold no `-`, the key determines the record's
      site: parsing it gives back the four fields. */
  lemma FeatureKeyRoundTrip(r: Record)
    requires '-' !in r.chrom && '-' !in r.ref && '-' !in r.alts[0]
    ensures ParseFeatureKey(FeatureKey(r)) == Some(KeyFields(r.chrom, r.pos, r.ref, r.alts[0]))
  {
    var digits := NatToString(r.pos);
    var parts := [r.chrom, digits, r.ref, r.alts[0]];
    assert forall i :: 0 <= i < |digits| ==> digits[i] != '-';
    assert Join(parts, '-') == FeatureKey(r) by {
      JoinCons(r.ref, [r.alts[0]], '-');
      JoinCons(digits, [r.ref, r.alts[0]], '-');
      JoinCons(r.chrom, [digits, r.ref, r.alts[0]], '-');
      assert [digits] + [r.ref, r.alts[0]] == [digits, r.ref, r.alts[0]];
      assert [r.chrom] + [digits, r.ref, r.alts[0]] == parts;
    }
    SplitJoin(parts, '-');
    ParseNatToString(r.pos);
  }

  /** Two sites whose CHROM, REF and ALT[0] hold no `-` get equal keys only
      when they agree on all four fields. */
  lemma FeatureKeyInjective(r1: Record, r2: Record)
    requires '-' !in r1.chrom && '-' !in r1.ref && '-' !in r1.alts[0]
    requires '-' !in r2.chrom && '-' !in r2.ref && '-' !in r2.alts[0]
    requires FeatureKey(r1) == FeatureKey(r2)
    ensures r1.chrom == r2.chrom && r1.pos == r2.pos && r1.ref == r2.ref && r1.alts[0] == r2.alts[0]
  {
    FeatureKeyRoundTrip(r1);
    FeatureKeyRoundTrip(r2);
  }
}
