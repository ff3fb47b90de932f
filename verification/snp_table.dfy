/** The filtering script's `get_variants`: keep the high-frequency
    bi-allelic SNPs, encode their genotypes, name them, and lay the result
    out with one row per sample and one column per kept site. */
module SnpTable {
  import opened Text
  import opened Variants
  import opened Genotypes
  import opened Masks

  /** The returned `data`: row labels (`rows`), column labels (`cols`) and
      the integer matrix (`vals`). */
  datatype SampleTable = SampleTable(rows: seq<string>, cols: seq<string>, vals: seq<seq<int>>)

  /** `is_hifreq_snp_var`: one flag per record. */
  function RetainMask(records: seq<Record>, thresh: real): (mask: seq<bool>)
    ensures |mask| == |records|
    ensures forall i :: 0 <= i < |records| ==> (mask[i] <==> Retained(records[i], thresh))
  {
    seq(|records|, i requires 0 <= i < |records| => Retained(records[i], thresh))
  }

  /** The records the mask keeps, in file order. */
  function Kept(records: seq<Record>, thresh: real): seq<Record> {
    Compress(records, RetainMask(records, thresh))
  }

  /** The kept records are exactly the retained ones: each kept record is a
      high-frequency SNP of the input, every such input record is kept, and
      the kept records appear in input order (`MaskIndices`). */
  lemma KeptAreRetained(records: seq<Record>, thresh: real)
    ensures forall k :: 0 <= k < |Kept(records, thresh)| ==>
      Retained(Kept(records, thresh)[k], thresh) && Kept(records, thresh)[k] in records
    ensures forall i :: 0 <= i < |records| && Retained(records[i], thresh) ==>
      records[i] in Kept(records, thresh)
  {
    var mask := RetainMask(records, thresh);
    CompressContents(records, mask);
  }

  /** The codes of one site, as a value that can be mapped over records. */
  function SiteCoder(pack: Packing): Record -> seq<int> {
    (r: Record) => Codes(pack, r.calls)
  }

  /** `gt.to_packed()` followed by the 16/17 remap: one row of codes per
      site, one code per sample. */
  function CodeMatrix(pack: Packing, records: seq<Record>): seq<seq<int>> {
    Map(SiteCoder(pack), records)
  }

  /** Masking the code matrix and the key list separately gives the codes
      and keys of the kept records, and the kept records still have one call
      per sample. */
  lemma MaskKeepsAlignment(samples: seq<string>, records: seq<Record>, thresh: real, pack: Packing)
    requires WellFormed(samples, records)
    ensures var mask := RetainMask(records, thresh);
      && Compress(CodeMatrix(pack, records), mask) == CodeMatrix(pack, Kept(records, thresh))
      && Compress(Map(FeatureKey, records), mask) == Map(FeatureKey, Kept(records, thresh))
      && WellFormed(samples, Kept(records, thresh))
  {
    var mask := RetainMask(records, thresh);
    CompressMap(SiteCoder(pack), records, mask);
    CompressMap(FeatureKey, records, mask);
    CompressPreserves(records, mask, (r: Record) => |r.calls| == |samples|);
  }

  /** The whole pipeline of the filtering script, without the file I/O.
      Both the code matrix and the key list are masked separately, then the
      code matrix is transposed; the contract states the result in terms of
      the kept records, so it says that the two stay aligned. */
  function GetVariants(samples: seq<string>, records: seq<Record>, thresh: real, pack: Packing): (t: SampleTable)
    requires WellFormed(samples, records)
    ensures t.rows == samples
    ensures |t.cols| == |Kept(records, thresh)|
    ensures forall f :: 0 <= f < |t.cols| ==> t.cols[f] == FeatureKey(Kept(records, thresh)[f])
    ensures |t.vals| == |samples|
    ensures forall s :: 0 <= s < |samples| ==> |t.vals[s]| == |t.cols|
    ensures forall f :: 0 <= f < |t.cols| ==> |Kept(records, thresh)[f].calls| == |samples|
    ensures forall s, f :: 0 <= s < |samples| && 0 <= f < |t.cols| ==>
      t.vals[s][f] == Code(pack, Kept(records, thresh)[f].calls[s])
  {
    var mask := RetainMask(records, thresh);
    var coded := Compress(CodeMatrix(pack, records), mask);
    var features := Compress(Map(FeatureKey, records), mask);
    MaskKeepsAlignment(samples, records, thresh, pack);
    SampleTable(samples, features, Transpose(coded, |samples|))
  }

  /** Every column of the table is a high-frequency bi-allelic SNP, and for
      such sites a cell holds the sample's number of alternate alleles when
      its call is 0/1. */
  lemma ColumnsAreHighFrequencySnps(samples: seq<string>, records: seq<Record>, thresh: real, pack: Packing)
    requires WellFormed(samples, records)
    requires ValidPacking(pack)
    ensures var t := GetVariants(samples, records, thresh, pack);
      forall f :: 0 <= f < |t.cols| ==>
        var site := Kept(records, thresh)[f];
        && IsSnpCandidate(site)
        && FrequencyPasses(AlleleCount(site.calls, 0), AlleleCount(site.calls, 1), thresh)
        && forall s :: 0 <= s < |samples| && s < |site.calls| && IsBiallelic(site.calls[s]) ==>
             t.vals[s][f] == Hits(site.calls[s], 1)
  {
    KeptAreRetained(records, thresh);
  }

  /** The worked site of `SingleSiteExample`. */
  function ExampleSite(chrom: string, pos: nat): Record {
    Record(chrom, pos, "A", ["T", "", ""],
           [Call(Idx(0), Idx(1)), Call(Idx(1), Idx(1)), Call(Idx(0), Idx(0))])
  }

  /** Three alternate alleles out of six give frequency 0.5, above 0.30. */
  lemma ExampleSiteRetained(chrom: string, pos: nat)
    ensures Retained(ExampleSite(chrom, pos), DefaultThreshold)
  {
    var rec := ExampleSite(chrom, pos);
    assert IsSnpCandidate(rec);
    assert AlleleCount(rec.calls, 0) == 3 && AlleleCount(rec.calls, 1) == 3 by {
      assert rec.calls[..2] == [Call(Idx(0), Idx(1)), Call(Idx(1), Idx(1))];
      assert rec.calls[..2][..1] == [Call(Idx(0), Idx(1))];
      assert rec.calls[..2][..1][..0] == [];
    }
    DefaultThresholdInIntegers(3, 3);
  }

  /** A file with one site that passes the filter gives one column: that
      site's key, and each sample's code for it. */
  lemma OneRetainedSite(samples: seq<string>, rec: Record, thresh: real, pack: Packing)
    requires |rec.calls| == |samples|
    requires Retained(rec, thresh)
    ensures var t := GetVariants(samples, [rec], thresh, pack);
      && t.cols == [FeatureKey(rec)]
      && |t.vals| == |samples|
      && forall s :: 0 <= s < |samples| ==> t.vals[s] == [Code(pack, rec.calls[s])]
  {
    assert RetainMask([rec], thresh) == [true];
    assert Kept([rec], thresh) == [rec] by {
      assert [rec][..0] == [] && [true][..0] == [];
    }
  }

  /** A worked site: REF `A`, ALT `T`, calls 0/1, 1/1, 0/0. The site is kept
      with key `<chrom>-<pos>-A-T`, and the three samples get the codes 1, 2
      and 0. */
  lemma SingleSiteExample(chrom: string, pos: nat, pack: Packing)
    requires ValidPacking(pack)
    ensures GetVariants(["s1", "s2", "s3"], [ExampleSite(chrom, pos)], DefaultThreshold, pack) ==
      SampleTable(["s1", "s2", "s3"], [chrom + "-" + NatToString(pos) + "-A-T"], [[1], [2], [0]])
  {
    var rec := ExampleSite(chrom, pos);
    ExampleSiteRetained(chrom, pos);
    OneRetainedSite(["s1", "s2", "s3"], rec, DefaultThreshold, pack);
    assert IsBiallelic(rec.calls[0]) && IsBiallelic(rec.calls[1]) && IsBiallelic(rec.calls[2]);
    var t := GetVariants(["s1", "s2", "s3"], [rec], DefaultThreshold, pack);
    assert t.vals[0] == [1] && t.vals[1] == [2] && t.vals[2] == [0];
    assert t.vals == [[1], [2], [0]];
    assert FeatureKey(rec) == chrom + "-" + NatToString(pos) + "-A-T";
  }

  /** A site with two alternate alleles is dropped whatever its frequency. */
  lemma MultiAllelicSiteDropped(samples: seq<string>, rec: Record, thresh: real, pack: Packing)
    requires |rec.calls| == |samples|
    requires |rec.alts| >= 2 && rec.alts[1] != ""
    ensures GetVariants(samples, [rec], thresh, pack).cols == []
  {
    assert !Retained(rec, thresh);
    assert Kept([rec], thresh) == [] by {
      assert [rec][..0] == [] && RetainMask([rec], thresh)[..0] == [];
    }
  }
}
