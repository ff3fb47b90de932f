/** The allel script's `get_variants`: no filtering; every record becomes a
    row holding its feature key and its genotype codes, under the columns
    `features` and the sample names; the rows may then be sampled. */
module FeatureTable {
  import opened Text
  import opened Results
  import opened Variants
  import opened Genotypes
  import opened Masks
  import opened Sampling

  datatype FeatureRow = FeatureRow(feature: string, codes: seq<int>)

  /** The data frame: its column labels and its rows. */
  datatype Table = Table(columns: seq<string>, rows: seq<FeatureRow>)

  /** The label of the leading key column. */
  const FeaturesColumn: string := "features"

  /** The row the frame holds for one record. */
  function RowOf(r: Record, pack: Packing): FeatureRow {
    FeatureRow(FeatureKey(r), Codes(pack, r.calls))
  }

  /** `row` is the row of one of the records. */
  predicate IsRecordRow(row: FeatureRow, records: seq<Record>, pack: Packing) {
    exists i :: 0 <= i < |records| && row == RowOf(records[i], pack)
  }

  /** The frame before sampling: the key column and the code matrix are
      built separately and then put side by side; row `i` is record `i`'s
      key followed by its code for each sample, in sample order. */
  function BuildTable(samples: seq<string>, records: seq<Record>, pack: Packing): (t: Table)
    requires WellFormed(samples, records)
    ensures t.columns == [FeaturesColumn] + samples
    ensures |t.rows| == |records|
    ensures forall i :: 0 <= i < |records| ==> t.rows[i] == RowOf(records[i], pack)
    ensures forall i :: 0 <= i < |records| ==>
      && t.rows[i].feature == FeatureKey(records[i])
      && |t.rows[i].codes| == |samples|
      && forall s :: 0 <= s < |samples| ==> t.rows[i].codes[s] == Code(pack, records[i].calls[s])
  {
    var features := Map(FeatureKey, records);
    var coded := seq(|records|, i requires 0 <= i < |records| => Codes(pack, records[i].calls));
    Table([FeaturesColumn] + samples,
          seq(|records|, i requires 0 <= i < |records| => FeatureRow(features[i], coded[i])))
  }

  /** `get_variants(vcf, sample_method, sample_n, sample_seed)` after
      reading the file; `choices` are what the seeded generator supplies. */
  function GetVariants(samples: seq<string>, records: seq<Record>, pack: Packing,
                       how: Option<string>, n: Option<int>, choices: seq<nat>)
    : (r: Result<Table, SamplingError>)
    requires WellFormed(samples, records)
    requires ValidChoices(choices, |records|)
    ensures !Active(how, n) ==> r == Ok(BuildTable(samples, records, pack))
    ensures r.Ok? ==> r.value.columns == [FeaturesColumn] + samples
    ensures r.Ok? ==> forall k :: 0 <= k < |r.value.rows| ==> IsRecordRow(r.value.rows[k], records, pack)
    ensures r.Err? <==> Active(how, n) && (!IsKnownMethod(how.value) || (Lower(how.value) == "random" && n.value < 0))
  {
    var full := BuildTable(samples, records, pack);
    match SampleRows(full.rows, how, n, choices)
    case Ok(rows) =>
      SampledRowsFromTable(full.rows, rows, samples, records, pack);
      Ok(Table(full.columns, rows))
    case Err(e) => Err(e)
  }

  /** A sub-multiset of the full frame's rows consists of rows of records:
      sampling never separates a key from its codes. */
  lemma SampledRowsFromTable(full: seq<FeatureRow>, rows: seq<FeatureRow>, samples: seq<string>,
                             records: seq<Record>, pack: Packing)
    requires WellFormed(samples, records)
    requires full == BuildTable(samples, records, pack).rows
    requires multiset(rows) <= multiset(full)
    ensures forall k :: 0 <= k < |rows| ==> IsRecordRow(rows[k], records, pack)
  {
    forall k | 0 <= k < |rows| ensures IsRecordRow(rows[k], records, pack) {
      assert rows[k] in multiset(rows);
      assert rows[k] in full;
      var i :| 0 <= i < |full| && full[i] == rows[k];
      assert 0 <= i < |records| && rows[k] == RowOf(records[i], pack);
    }
  }

  /** A successful sampling of the full frame's rows is what
      `GetVariants` returns, under the full frame's columns. */
  lemma SampledTable(samples: seq<string>, records: seq<Record>, pack: Packing,
                     how: Option<string>, n: Option<int>, choices: seq<nat>)
    requires WellFormed(samples, records)
    requires ValidChoices(choices, |records|)
    ensures var full := BuildTable(samples, records, pack);
      var sampled := SampleRows(full.rows, how, n, choices);
      sampled.Ok? ==> GetVariants(samples, records, pack, how, n, choices) == Ok(Table(full.columns, sampled.value))
  {
  }

  /** A result holding the frame's last `min(n, size)` rows: its entry `k`
      is the row of record `size - min(n, size) + k`. */
  lemma TrailingRowsOf(r: Result<Table, SamplingError>, rows: seq<FeatureRow>, records: seq<Record>,
                       pack: Packing, n: int)
    requires n > 0
    requires |rows| == |records|
    requires forall i :: 0 <= i < |records| ==> rows[i] == RowOf(records[i], pack)
    requires r.Ok? && r.value.rows == rows[|records| - Min(n, |records|)..]
    ensures r.Ok?
    ensures |r.value.rows| == Min(n, |records|)
    ensures forall k :: 0 <= k < |r.value.rows| ==>
      r.value.rows[k] == RowOf(records[|records| - Min(n, |records|) + k], pack)
  {
    var d := |records| - Min(n, |records|);
    forall k | 0 <= k < |r.value.rows| ensures r.value.rows[k] == RowOf(records[d + k], pack) {
      SuffixIndex(rows, d, k);
    }
  }

  /** `first n` returns the first `min(n, size)` rows of the full frame. */
  lemma FirstSampledRows(samples: seq<string>, records: seq<Record>, pack: Packing, n: int, choices: seq<nat>)
    requires WellFormed(samples, records)
    requires ValidChoices(choices, |records|)
    requires n > 0
    ensures var r := GetVariants(samples, records, pack, Some("first"), Some(n), choices);
      r == Ok(Table([FeaturesColumn] + samples, BuildTable(samples, records, pack).rows[..Min(n, |records|)]))
  {
    var full := BuildTable(samples, records, pack);
    FirstIsPrefix(full.rows, n, choices);
    SampledTable(samples, records, pack, Some("first"), Some(n), choices);
  }

  /** `last n` returns the last `min(n, size)` rows of the full frame. */
  lemma LastSampledRows(samples: seq<string>, records: seq<Record>, pack: Packing, n: int, choices: seq<nat>)
    requires WellFormed(samples, records)
    requires ValidChoices(choices, |records|)
    requires n > 0
    ensures var r := GetVariants(samples, records, pack, Some("last"), Some(n), choices);
      r == Ok(Table([FeaturesColumn] + samples,
                    BuildTable(samples, records, pack).rows[|records| - Min(n, |records|)..]))
  {
    var full := BuildTable(samples, records, pack);
    LastIsSuffix(full.rows, n, choices);
    SampledTable(samples, records, pack, Some("last"), Some(n), choices);
  }

  /** Sampling `first n` keeps the rows of the first `min(n, size)` records, in order. */
  lemma FirstKeepsLeadingRecords(samples: seq<string>, records: seq<Record>, pack: Packing, n: int, choices: seq<nat>)
    requires WellFormed(samples, records)
    requires ValidChoices(choices, |records|)
    requires n > 0
    ensures var r := GetVariants(samples, records, pack, Some("first"), Some(n), choices);
      && r.Ok?
      && |r.value.rows| == Min(n, |records|)
      && forall k :: 0 <= k < |r.value.rows| ==> r.value.rows[k] == RowOf(records[k], pack)
  {
    FirstSampledRows(samples, records, pack, n, choices);
    var rows := BuildTable(samples, records, pack).rows;
    var m := Min(n, |records|);
    forall k | 0 <= k < m ensures rows[..m][k] == RowOf(records[k], pack) {
      assert rows[..m][k] == rows[k];
    }
  }

  /** Sampling `last n` keeps the rows of the last `min(n, size)` records, in order. */
  lemma LastKeepsTrailingRecords(samples: seq<string>, records: seq<Record>, pack: Packing, n: int, choices: seq<nat>)
    requires WellFormed(samples, records)
    requires ValidChoices(choices, |records|)
    requires n > 0
    ensures var r := GetVariants(samples, records, pack, Some("last"), Some(n), choices);
      && r.Ok?
      && |r.value.rows| == Min(n, |records|)
      && forall k :: 0 <= k < |r.value.rows| ==>
           r.value.rows[k] == RowOf(records[|records| - Min(n, |records|) + k], pack)
  {
    LastSampledRows(samples, records, pack, n, choices);
    TrailingRowsOf(GetVariants(samples, records, pack, Some("last"), Some(n), choices),
                   BuildTable(samples, records, pack).rows, records, pack, n);
  }
}
