# Genotype-table pipeline, modelled in Dafny

The repository has two `get_variants` scripts. Both turn the records of a parsed VCF file (VCF v4.2: the fixed fields CHROM, POS, REF and ALT of section 1.4.1, and the per-sample GT field of section 1.4.2) into a labelled integer table. Each sample's diploid call becomes a small code.

- The **filtering script**, `src/get_variants/python/get_variants.py`:
  - keeps the bi-allelic SNPs whose first alternate allele has a frequency strictly above `freq_thresh` (default 0.30);
  - encodes their genotypes;
  - names each site `CHROM-POS-REF-ALT[0]`;
  - returns a samples × sites table;
  - writes it under the input's base name, with its `.vcf…` tail replaced by `.csv`.
- The **allel script**, `src/allel/get_variants.py`:
  - encodes every record without filtering;
  - lays the result out as sites × samples, behind a leading `features` column;
  - optionally samples the rows (`first`, `last` or `random`);
  - writes the file as `<stem>.<sampling>.csv`.
- Both scripts share `localize` and `delocalize`, which read the bucket and key out of an `s3://` path.

The model is split into these modules:

| module | what it holds |
|---|---|
| `Results` | `Option` and `Result` |
| `Text` | the Python string operations used: `lower`, `split`, `join`, `replace(p, '')`, `os.path.basename`, `str(int)` |
| `Variants` | records and calls, the SNP test, the allele tallies, the frequency test and the feature key |
| `Genotypes` | the packed-code remap (16 → 1, 17 → 2). The library's packing is a parameter, constrained only by the four values the scripts rely on. |
| `Masks` | numpy boolean-mask selection and transpose |
| `SnpTable` | the filtering script's pipeline |
| `Sampling` | the `first`/`last`/`random` row sampling |
| `FeatureTable` | the allel script's pipeline |
| `OutputNames` | the `re.sub('\.vcf.*$', …, flags=re.I)` renaming and the sampling tag. Line breaks are handled as Python's `re` handles them: `.` does not match a line break, and `$` also matches just before a final one. |
| `S3Paths` | the string side of `localize` and `delocalize` |

A few behaviours of the code worth knowing:

- A half-missing call (`0/.` or `1/.`) keeps its packed value; the scripts do not coerce it to 1 or 2.
- Duplicate feature keys are neither detected nor reported.
- A negative `sample_n` is accepted: `first` and `last` then use pandas' negative `head`/`tail`, and only `random` fails.
- The random draw is given as data: the generator's `choices`. The same seed gives the same choices, and therefore the same rows. How a seed produces its choices is outside the model.

## Model

| member | source | states |
|---|---|---|
| Text.Split | src/get_variants/python/get_variants.py:38 | `str.split` on one separator yields at least one field, and no field contains the separator |
| Text.Join | src/get_variants/python/get_variants.py:39 | `sep.join(parts)`: the fields with one separator between neighbours; `JoinSplit` and `SplitJoin` make it the inverse of `Split`, and `JoinSnoc` covers the appended file name at line 59 |
| Text.JoinSplit | src/get_variants/python/get_variants.py:38-39 | joining the fields of a split with the same separator gives the original string back |
| Text.SplitJoin | src/get_variants/python/get_variants.py:38-39 | splitting a join of separator-free fields gives the fields back |
| Text.SplitField | src/get_variants/python/get_variants.py:38 | a leading separator-free field followed by the separator is split off as the first field |
| Text.JoinSnoc | src/get_variants/python/get_variants.py:59 | appending a field to the list adds a separator and the field at the end of the join |
| Text.Basename | src/get_variants/python/get_variants.py:110 | `os.path.basename` is the longest `/`-free suffix of the path: the whole path when it has no `/`, otherwise everything after the last `/` |
| Text.RemoveAll | src/get_variants/python/get_variants.py:38 | `s.replace(pattern, '')`: a left-to-right scan deleting non-overlapping occurrences, never longer than `s`; `RemoveAllAbsent` and `S3Paths.RemoveLeadingScheme` characterise it |
| Text.RemoveAllAbsent | src/get_variants/python/get_variants.py:38 | `replace(p, '')` leaves a string without any occurrence of `p` unchanged |
| Text.ParseNatToString | src/get_variants/python/get_variants.py:93 | reading back the decimal rendering of POS gives POS |
| Text.IntToString | src/allel/get_variants.py:145 | `str()` on an integer: at least one character, a `-` before the digits of a negative value; `IntToStringInjective` shows distinct values give distinct text |
| Text.NatToStringInjective | src/get_variants/python/get_variants.py:93 | distinct positions render to distinct digit strings |
| Text.IntToStringInjective | src/allel/get_variants.py:145 | `str(sample_n)` is injective over all integers, negative ones included |
| Variants.AnyNonEmpty | src/get_variants/python/get_variants.py:79 | `any(a[1:])` over strings holds exactly when some slot is non-empty |
| Variants.IsSnpCandidate | src/get_variants/python/get_variants.py:78-80 | a site is an SNP candidate iff REF has one base, ALT[0] has one base and every later ALT slot is empty, so a site with no alternate allele or with a second one is rejected |
| Variants.AlleleCount | src/get_variants/python/get_variants.py:83 | column `k` of `count_alleles()` for one site: how many allele slots of the site's calls show `k`, at most two per call; `AlleleCountAppend` and `AlleleCountZero` characterise it |
| Variants.AlleleCountAppend | src/get_variants/python/get_variants.py:83 | allele tallies add up over concatenated call lists |
| Variants.AlleleCountZero | src/get_variants/python/get_variants.py:83 | a site where no call mentions allele `k` tallies zero for `k`: missing alleles and other indices count for nothing |
| Variants.FrequencyPasses | src/get_variants/python/get_variants.py:84 | `ac[:, 1] / (ac[:, 0] + ac[:, 1]) > freq_thresh`, false on a zero denominator as NaN is; `FrequencyCrossMultiplied` and `DefaultThresholdInIntegers` restate it without division |
| Variants.FrequencyCrossMultiplied | src/get_variants/python/get_variants.py:84 | the test `alt / (ref + alt) > t` is equivalent to `ref + alt > 0 && alt > t * (ref + alt)` |
| Variants.DefaultThresholdInIntegers | src/get_variants/python/get_variants.py:84 | at the default 0.30 the test is `10 * alt > 3 * (ref + alt)`, so a site at exactly 30% is dropped |
| Variants.Retained | src/get_variants/python/get_variants.py:84 | `is_hifreq_snp_var` for one site: an SNP candidate whose alternate fraction passes the threshold; `SnpTable.KeptAreRetained` shows the kept records are exactly these |
| Variants.UnobservedSiteNeverRetained | src/get_variants/python/get_variants.py:84 | a site with no observed allele 0 or 1 (the 0/0 division) is never kept, whatever the threshold |
| Variants.FeatureKey | src/get_variants/python/get_variants.py:93 | CHROM, POS, REF and ALT[0] joined by `-`; `FeatureKeyRoundTrip` reads it back and `FeatureKeyInjective` shows unambiguous keys identify the site |
| Variants.FeatureKeyRoundTrip | src/get_variants/python/get_variants.py:92-99 | a key whose CHROM, REF and ALT[0] contain no `-` parses back into the site's four fields |
| Variants.FeatureKeyInjective | src/get_variants/python/get_variants.py:92-99 | two such sites get the same key only if they agree on CHROM, POS, REF and ALT[0] |
| Genotypes.Remap | src/get_variants/python/get_variants.py:88-89 | after the remap no code is 16 or 17, and every other packed value is unchanged |
| Genotypes.RemapIdempotent | src/allel/get_variants.py:96-97 | applying the remap a second time changes nothing |
| Genotypes.Code | src/allel/get_variants.py:95-97 | a 0/1 call encodes to its number of alternate alleles (0, 1 or 2, with both heterozygous orders giving 1); any other call keeps its packed value |
| Genotypes.Codes | src/get_variants/python/get_variants.py:87-89 | a site's code row has one code per sample, in sample order |
| Genotypes.MixedCallsExample | src/allel/get_variants.py:95-97 | the calls 0/0, 0/1, 1/1, ./., 0/. and 1/. encode to 0, 1, 2 and then their three packed values unchanged |
| Masks.Compress | src/get_variants/python/get_variants.py:100 | `xs[mask]` has as many entries as the mask has `True`s |
| Masks.CompressContents | src/get_variants/python/get_variants.py:87 | every selected entry comes from a `True` position, and every entry at a `True` position is selected |
| Masks.CompressMap | src/get_variants/python/get_variants.py:87-100 | masking a mapped array gives the map of the masked array, which keeps the code rows and the keys aligned |
| Masks.CompressPreserves | src/get_variants/python/get_variants.py:87 | a property every record has (one call per sample, say) holds for every record the mask selects |
| Masks.MaskIndices | src/get_variants/python/get_variants.py:100 | the positions a mask selects are strictly increasing, are exactly its `True` positions, and entry `k` of the selection is the entry at the `k`-th position, so the original order is kept |
| Masks.Transpose | src/get_variants/python/get_variants.py:107 | the transpose has one row per sample, and cell `[s][f]` of the transpose is cell `[f][s]` of the original |
| Masks.TransposeTwice | src/get_variants/python/get_variants.py:118 | transposing twice gives the matrix back: the sample × site `vals` lose nothing of the site × sample codes |
| SnpTable.RetainMask | src/get_variants/python/get_variants.py:84 | the mask has one flag per record, true exactly for the records that are kept |
| SnpTable.KeptAreRetained | src/get_variants/python/get_variants.py:84-87 | each kept record is an input record that passes both tests, and every input record that passes is kept |
| SnpTable.MaskKeepsAlignment | src/get_variants/python/get_variants.py:87-100 | masking the code matrix and the key list separately gives the codes and the keys of the same kept records |
| SnpTable.GetVariants | src/get_variants/python/get_variants.py:116-121 | `rows` are the sample names in header order; `cols` are the keys of the kept sites in file order; `vals[s][f]` is sample `s`'s code at kept site `f` |
| SnpTable.ColumnsAreHighFrequencySnps | src/get_variants/python/get_variants.py:78-89 | every column is an SNP candidate whose alternate frequency passes the threshold, and a 0/1 call's cell holds its number of alternate alleles |
| SnpTable.ExampleSiteRetained | src/get_variants/python/get_variants.py:83-84 | the site with calls 0/1, 1/1, 0/0 (3 alternate alleles of 6) passes the default threshold |
| SnpTable.OneRetainedSite | src/get_variants/python/get_variants.py:87-108 | a single passing site gives one column: its key, with each sample's code for it |
| SnpTable.SingleSiteExample | src/get_variants/python/get_variants.py:78-121 | REF `A`, ALT `T` and calls 0/1, 1/1, 0/0 give the column `<chrom>-<pos>-A-T` and the codes 1, 2, 0 |
| SnpTable.MultiAllelicSiteDropped | src/get_variants/python/get_variants.py:79 | a site with a second alternate allele gives no column, whatever its frequency |
| Sampling.Active | src/allel/get_variants.py:114 | `sample_method and sample_n`: a non-empty method name and a non-zero count; when it is false, `SampleRows` returns the rows unchanged |
| Sampling.IsKnownMethod | src/allel/get_variants.py:118-124 | the method name lower-cased is `first`, `last` or `random`; `SampleRows` fails with the unsupported-method error exactly when an active request names another |
| Sampling.Head | src/allel/get_variants.py:119 | `head(n)` returns rows of the input, none duplicated |
| Sampling.Tail | src/allel/get_variants.py:122 | `tail(n)` returns rows of the input, none duplicated |
| Sampling.DrawRows | src/allel/get_variants.py:126 | a random draw without replacement has one row per choice and is a sub-multiset of the rows |
| Sampling.SampleRows | src/allel/get_variants.py:114-129 | inactive sampling returns the rows unchanged; an unknown method fails, and only when sampling is active; a negative `random` count fails; a positive count is clamped to the row count; `first` keeps a prefix and `last` a suffix; `random` with a count at least the row count keeps every row; every result is a sub-multiset of the rows |
| Sampling.FirstIsPrefix | src/allel/get_variants.py:118-119 | `first n` with a positive `n` keeps the first `min(n, size)` rows |
| Sampling.LastIsSuffix | src/allel/get_variants.py:121-122 | `last n` with a positive `n` keeps the last `min(n, size)` rows |
| Sampling.FirstAndLastPartition | src/allel/get_variants.py:118-122 | `first k` followed by `last (size - k)` is the whole table |
| Sampling.NegativeCount | src/allel/get_variants.py:118-122 | a negative count keeps all but the last (`first`) or all but the first (`last`) `-n` rows |
| Sampling.FiveRowsExample | src/allel/get_variants.py:118-122 | on five rows, `first 2` keeps rows 0 and 1 and `last 2` keeps rows 3 and 4 |
| Sampling.OversizedCountKeepsAll | src/allel/get_variants.py:115-126 | a count above the row count keeps every row, for `first` and for `random` |
| FeatureTable.BuildTable | src/allel/get_variants.py:99-112 | the columns are `features` followed by the sample names, and row `i` is record `i`'s key followed by its code for each sample, in sample order |
| FeatureTable.GetVariants | src/allel/get_variants.py:89-131 | without active sampling the whole frame is returned; the columns are always kept; each returned row is a record's row; it fails exactly on an unknown method or a negative `random` count |
| FeatureTable.SampledRowsFromTable | src/allel/get_variants.py:114-126 | sampling never separates a key from its codes: every sampled row is the row of some record |
| FeatureTable.FirstSampledRows | src/allel/get_variants.py:114-119 | `get_variants` with `first n` returns the full frame's columns and its first `min(n, size)` rows |
| FeatureTable.LastSampledRows | src/allel/get_variants.py:114-122 | `get_variants` with `last n` returns the full frame's columns and its last `min(n, size)` rows |
| FeatureTable.FirstKeepsLeadingRecords | src/allel/get_variants.py:118-119 | `first n` keeps the rows of the first `min(n, size)` records, in order |
| FeatureTable.LastKeepsTrailingRecords | src/allel/get_variants.py:121-122 | `last n` keeps the rows of the last `min(n, size)` records, in order |
| OutputNames.LineEnd | src/get_variants/python/get_variants.py:110 | where the greedy `.*` stops and `$` matches: just before a final line break if there is one, otherwise the end of the string |
| OutputNames.FirstMatch | src/get_variants/python/get_variants.py:110 | the search finds the leftmost position where the pattern matches, or reports that there is none |
| OutputNames.SubVcf | src/get_variants/python/get_variants.py:110 | with no match the name is unchanged; otherwise everything from the leftmost match up to the final line break (if any) is replaced; no character comes from elsewhere |
| OutputNames.SubVcfAt | src/get_variants/python/get_variants.py:110 | the substitution at a known leftmost match |
| OutputNames.NewlineFreeMatches | src/get_variants/python/get_variants.py:110 | in a name without line breaks the pattern matches exactly where `.vcf` occurs, in any letter case |
| OutputNames.SubVcfCutAtFirst | src/get_variants/python/get_variants.py:110 | in a name without line breaks the substitution cuts the name at its first `.vcf`, in any case, and puts the replacement there |
| OutputNames.StrippedHasNoVcf | src/allel/get_variants.py:147 | a stripped stem contains no `.vcf` in any letter case |
| OutputNames.StripIdempotent | src/allel/get_variants.py:147 | stripping a stripped stem changes nothing |
| OutputNames.CountText | src/allel/get_variants.py:145 | `str(sample_n)`: the count's decimal text, or `None` without a count; `SamplingLabel` ends in it and `LabelInjective` relies on it |
| OutputNames.SamplingLabel | src/allel/get_variants.py:143-145 | the tag is `all` exactly when no method name is given; otherwise it is the method name followed by `str(sample_n)`, which is `None` when no count is given |
| OutputNames.LabelInjective | src/allel/get_variants.py:143-145 | for the accepted methods, different method or count settings give different tags, so different files |
| OutputNames.LabelWithoutSampling | src/allel/get_variants.py:143-145 | a method without a count (or with count 0) samples nothing, yet the tag is not `all` |
| OutputNames.SnpCsvName | src/get_variants/python/get_variants.py:110 | the CSV name has no `/`, so it lands in the working directory |
| OutputNames.AllelCsvName | src/allel/get_variants.py:147-148 | the CSV name ends in `.<sampling>.csv` |
| OutputNames.CsvNamesCutAtFirstVcf | src/allel/get_variants.py:147-148 | for a base name without line breaks, both names are the base name cut before its first `.vcf` in any case, followed by `.csv` or `.<sampling>.csv` |
| OutputNames.CsvNamesWithoutVcf | src/get_variants/python/get_variants.py:110 | a base name without `.vcf` is kept whole in both names |
| OutputNames.TrailingNewlineKept | src/get_variants/python/get_variants.py:110 | `<stem>.VCF.gz` followed by a line break becomes `<stem>.csv` followed by the line break |
| S3Paths.SplitBucketKey | src/get_variants/python/get_variants.py:38-39 | the bucket has no `/`, and bucket, `/` and key put back together give the path (the key is empty when there is no `/`) |
| S3Paths.SplitBucketKeyOf | src/get_variants/python/get_variants.py:38-39 | a `/`-free bucket joined to any key by `/` splits back into that bucket and key |
| S3Paths.GzSuffix | src/get_variants/python/get_variants.py:41-43 | the temporary file gets the suffix `.gz` exactly when the key ends in `.gz` |
| S3Paths.Localize | src/get_variants/python/get_variants.py:34-47 | a path whose lower-cased form does not start with `s3://` is used as it is; otherwise the bucket is `/`-free and, with the key, rebuilds the path after every `s3://` has been removed; when no `/` remains the bucket is that whole stripped path and the key is empty |
| S3Paths.LocalizeCorrected | src/allel/get_variants.py:57-61 | the recognised scheme (any case) is dropped from the front only, and the path is exactly scheme, bucket, `/` and key |
| S3Paths.RemoveLeadingScheme | src/get_variants/python/get_variants.py:38 | removing the scheme from `s3://` followed by a scheme-free rest leaves the rest |
| S3Paths.LocalizeAgreesOnPlainUrls | src/get_variants/python/get_variants.py:35-39 | on a lower-case URL in which the scheme does not reappear, `localize` and the corrected version agree |
| S3Paths.UpperSchemeSurvives | src/get_variants/python/get_variants.py:38 | the case-sensitive `replace` leaves `S3://` in place |
| S3Paths.LocalizeUpperScheme | src/get_variants/python/get_variants.py:35-39 | `S3://b/k` is recognised but read as bucket `S3:` and key `/b/k`; the corrected version reads bucket `b` and key `k` |
| S3Paths.LocalizePlainUrl | src/allel/get_variants.py:57-61 | `s3://` followed by a scheme-free rest downloads the bucket and key read off the rest |
| S3Paths.DelocalizeTarget | src/get_variants/python/get_variants.py:58-59 | the upload bucket has no `/`, and the key ends in the file's base name |
| S3Paths.DelocalizeTargetPlain | src/allel/get_variants.py:80-81 | for `s3://` followed by a scheme-free rest, the upload goes to the rest's first segment, under the remaining segments followed by the base name |
| S3Paths.DelocalizeUrl | src/get_variants/python/get_variants.py:58-64 | the returned URL is `s3://`, then the output path with the scheme removed, then `/` and the file's base name |
| S3Paths.DelocalizeThenLocalize | src/get_variants/python/get_variants.py:58-64 | localizing the URL that `delocalize` returns downloads exactly the bucket and key it uploaded to |
| S3Paths.DelocalizeThenLocalizeCorrected | src/get_variants/python/get_variants.py:58-64 | with the corrected `localize`, the URL that `delocalize` returns always leads back to the bucket and key it uploaded to, for any output path |

## Left out

- Reading the VCF file (`allel.read_vcf`, `GenotypeArray`) is not modelled: records arrive already parsed. The ALT column is the parser's fixed-width slot array, with empty strings in unused slots.
- The genotype library's packing is not modelled bit by bit. It is the parameter `Genotypes.Packing`, constrained only by the values 0, 1, 16 and 17 of the four 0/1 calls. Every other call packs to a value other than 16 and 17.
- The width of the allele-count array is not modelled: the model treats every index as present. `count_alleles()` sizes the array by the largest allele index in the whole file, so if no call anywhere in the file shows an allele index of 1 or more, `ac[:, 1]` raises `IndexError`. A file whose only alternate calls show allele 2 or more still has the column: it is all zeros and the sites are dropped, as in the model.
- Floating point is not modelled. The frequency test uses exact rationals, so a float rounding near the threshold can differ. A zero denominator makes the test false, as NaN does in numpy.
- `lower()` is modelled for ASCII letters only; Unicode case mapping is left out.
- `os.path.basename` is modelled with POSIX separators only.
- The random generator is left out. `random` sampling takes the generator's choices as a parameter and draws without replacement by removal. The order pandas returns the drawn rows in is not modelled.
- Downloads, uploads, temporary files, `os.remove`, `argparse`, `main`'s wiring, `to_csv` serialisation and `pd.concat` are I/O and are not modelled. So is the `call` dictionary the filtering script returns beside `data`.
- `argparse` restricts `--sample-method` to `first`, `last` and `random`. The unknown-method error is therefore reachable only by calling `get_variants` directly. The model keeps that error.
- The in-place remap of the code array is modelled as a pure function. The discarded `gt_coded.transpose()` on line 90 of the filtering script has no effect and has no counterpart.
- `src/submit_jobs.py`, `src/bcftools/bcftools.py` and `src/example_app/invoke.py` are job submission, a subprocess wrapper and a network client. They are not part of this model.
- S3Paths.DelocalizeThenLocalize: assumes `s3://` does not occur in the output path after its scheme or in the file name. The script's global `replace` would remove such an occurrence.
- S3Paths.LocalizeAgreesOnPlainUrls: assumes the scheme does not reappear after the first five characters, for the same reason.
- Variants.FeatureKeyRoundTrip: assumes CHROM, REF and ALT[0] contain no `-`. A chromosome such as `HLA-A` makes the key ambiguous.
- OutputNames.StrippedHasNoVcf: assumes a name without line breaks. After a line break, `.vcf` can survive.
- OutputNames.CsvNamesCutAtFirstVcf: assumes a base name without line breaks. For other names it is `OutputNames.SubVcf` that states the result.
- SnpTable.GetVariants: requires one call per sample for every record, which the genotype array guarantees.

## Findings

| source | as written | input that shows it | evidently intended | confidence | as-written member | corrected member |
|---|---|---|---|---|---|---|
| src/get_variants/python/get_variants.py:35-38 (same code at src/allel/get_variants.py:57-60) | the scheme test lower-cases the path, but the scheme is then removed with the case-sensitive `path.replace('s3://', '')` | `S3://bucket/data.vcf.gz` is recognised as an S3 path and downloaded from bucket `S3:` with key `/bucket/data.vcf.gz` | drop the recognised scheme, whatever its case, from the front only, then read bucket `bucket` and key `data.vcf.gz` | not executed | S3Paths.LocalizeUpperScheme | S3Paths.LocalizeCorrected |
