/** The names of the CSV files the two scripts write. Both take the base
    name of the input path and rewrite its `.vcf…` tail with the regular
    expression `\.vcf.*$` under `re.I`: `.` matches any character but a line
    break, and `$` matches at the end or just before a final line break. The
    allel script then appends a tag for the sampling it applied. */
module OutputNames {
  import opened Text
  import opened Results
  import opened Sampling

  /** No line break: what the pattern's `.*` can run over. */
  predicate NoNewline(s: string) {
    forall k :: 0 <= k < |s| ==> s[k] != '\n'
  }

  /** The position where the greedy `.*` stops and `$` matches: a final
      line break, if any, otherwise the end of the string. */
  function LineEnd(s: string): (e: nat)
    ensures e <= |s|
    ensures e == |s| || (e == |s| - 1 && s[e] == '\n')
    ensures e < |s| <==> |s| > 0 && s[|s| - 1] == '\n'
  {
    if |s| > 0 && s[|s| - 1] == '\n' then |s| - 1 else |s|
  }

  /** `.vcf`, in any letter case, starts at `i`. */
  predicate VcfAt(s: string, i: nat) {
    && i + 4 <= |s|
    && s[i] == '.' && LowerChar(s[i + 1]) == 'v' && LowerChar(s[i + 2]) == 'c' && LowerChar(s[i + 3]) == 'f'
  }

  /** The pattern matches at `i`: `.vcf`, then a run of non-break characters
      that reaches a position where `$` matches. */
  predicate MatchesAt(s: string, i: nat) {
    VcfAt(s, i) && forall k :: i + 4 <= k < LineEnd(s) ==> s[k] != '\n'
  }

  /** The leftmost match at or after `from`, as `re.search` scans. */
  function FirstMatch(s: string, from: nat): (r: Option<nat>)
    requires from <= |s|
    ensures r.Some? ==> from <= r.value < |s| && MatchesAt(s, r.value)
    ensures r.Some? ==> forall j :: from <= j < r.value ==> !MatchesAt(s, j)
    ensures r.None? ==> forall j: nat :: from <= j ==> !MatchesAt(s, j)
    decreases |s| - from
  {
    if from == |s| then None
    else if MatchesAt(s, from) then Some(from)
    else FirstMatch(s, from + 1)
  }

  /** `re.sub('\.vcf.*$', repl, s, flags=re.I)`. A match always runs to
      `LineEnd(s)`, after which nothing is left to match, so at most the
      leftmost match is replaced. Without a match the name is unchanged;
      otherwise everything from the leftmost `.vcf` up to the final line
      break (if any) is replaced. */
  function SubVcf(s: string, repl: string): (r: string)
    ensures (forall i: nat :: !MatchesAt(s, i)) ==> r == s
    ensures forall i: nat :: MatchesAt(s, i) && (forall j :: 0 <= j < i ==> !MatchesAt(s, j)) ==>
      r == s[..i] + repl + s[LineEnd(s)..]
    ensures forall c :: c in r ==> c in s || c in repl
  {
    match FirstMatch(s, 0)
    case None => s
    case Some(i) =>
      var r := s[..i] + repl + s[LineEnd(s)..];
      assert forall c :: c in r ==> c in s[..i] || c in repl || c in s[LineEnd(s)..];
      r
  }

  /** The substitution at a known leftmost match. */
  lemma SubVcfAt(s: string, i: nat, repl: string)
    requires MatchesAt(s, i)
    requires forall j :: 0 <= j < i ==> !MatchesAt(s, j)
    ensures SubVcf(s, repl) == s[..i] + repl + s[LineEnd(s)..]
  {
  }

  /** For a name without line breaks the pattern matches exactly where
      `.vcf` occurs. */
  lemma NewlineFreeMatches(s: string, i: nat)
    requires NoNewline(s)
    ensures MatchesAt(s, i) <==> VcfAt(s, i)
  {
    if VcfAt(s, i) {
      assert LineEnd(s) == |s|;
    }
  }

  /** Removing the tail leaves no `.vcf` at all in a name without line
      breaks: the result is cut just before the first one. */
  lemma StrippedHasNoVcf(s: string)
    requires NoNewline(s)
    ensures forall j: nat :: !VcfAt(SubVcf(s, ""), j)
  {
    match FirstMatch(s, 0)
    case None =>
      forall j: nat ensures !VcfAt(SubVcf(s, ""), j) {
        NewlineFreeMatches(s, j);
      }
    case Some(i) =>
      assert LineEnd(s) == |s|;
      var r := s[..i];
      assert SubVcf(s, "") == r;
      forall j: nat ensures !VcfAt(r, j) {
        if j + 4 <= |r| {
          assert r[j..j + 4] == s[j..j + 4];
          NewlineFreeMatches(s, j);
        }
      }
  }

  /** Stripping twice strips no more than stripping once. */
  lemma StripIdempotent(s: string)
    requires NoNewline(s)
    ensures SubVcf(SubVcf(s, ""), "") == SubVcf(s, "")
  {
    var r := SubVcf(s, "");
    StrippedHasNoVcf(s);
    forall i: nat ensures !MatchesAt(r, i) {
      assert !VcfAt(r, i);
    }
  }

  /** `str(sample_n)`: the count's decimal form, or `None` without one. */
  function CountText(n: Option<int>): string {
    if n.Some? then IntToString(n.value) else "None"
  }

  /** `sampling`: `all` unless a method name is given (and non-empty), and
      then the method name followed by `str(sample_n)`, which is `None` when
      no count is given. */
  function SamplingLabel(how: Option<string>, n: Option<int>): (tag: string)
    ensures tag == "all" <==> how.None? || how.value == ""
    ensures how.Some? && how.value != "" ==>
      StartsWith(tag, how.value) && |tag| > |how.value|
    ensures how.Some? && how.value != "" ==>
      tag[|how.value|..] == CountText(n)
  {
    if how.Some? && how.value != "" then
      var count := CountText(n);
      var tag := how.value + count;
      assert tag[|tag| - 1] == count[|count| - 1];
      assert tag[..|how.value|] == how.value;
      assert tag[|how.value|..] == count;
      tag
    else "all"
  }

  /** The three method names the command line accepts. */
  predicate IsChoice(how: string) {
    how == "first" || how == "last" || how == "random"
  }

  /** For the accepted method names the tag names both the method and the
      count: two runs with different settings write different files. */
  lemma LabelInjective(h1: string, n1: Option<int>, h2: string, n2: Option<int>)
    requires IsChoice(h1) && IsChoice(h2)
    requires SamplingLabel(Some(h1), n1) == SamplingLabel(Some(h2), n2)
    ensures h1 == h2 && n1 == n2
  {
    var tag := SamplingLabel(Some(h1), n1);
    assert tag[0] == h1[0] && tag[0] == h2[0];
    assert h1 == h2;
    var c1 := CountText(n1);
    var c2 := CountText(n2);
    assert tag == h1 + c1 && tag == h1 + c2;
    assert c1 == tag[|h1|..] && c2 == tag[|h1|..];
    assert c1[0] == 'N' <==> n1.None?;
    assert c2[0] == 'N' <==> n2.None?;
    if n1.Some? && n2.Some? {
      IntToStringInjective(n1.value, n2.value);
    }
  }

  /** The tag reflects the method argument, not whether rows were
      sampled: without a count (or with a count of 0) every row is kept,
      yet the file is not labelled `all`. */
  lemma LabelWithoutSampling(how: string)
    requires how != ""
    ensures !Active(Some(how), None) && SamplingLabel(Some(how), None) == how + "None"
    ensures !Active(Some(how), Some(0)) && SamplingLabel(Some(how), Some(0)) == how + "0"
  {
    assert IntToString(0) == "0";
  }

  /** The filtering script's `csv_file`: the base name with its `.vcf…`
      tail replaced by `.csv`. It holds no `/`, so the file is written in
      the working directory. */
  function SnpCsvName(vcfFile: string): (name: string)
    ensures '/' !in name
  {
    SubVcf(Basename(vcfFile), ".csv")
  }

  /** The allel script's `csv_file`: the base name with its `.vcf…` tail
      removed, then `.<sampling>.csv`. */
  function AllelCsvName(vcfFile: string, how: Option<string>, n: Option<int>): (name: string)
    ensures EndsWith(name, "." + SamplingLabel(how, n) + ".csv")
  {
    var stem := SubVcf(Basename(vcfFile), "");
    var tail := "." + SamplingLabel(how, n) + ".csv";
    EndsWithAppend(stem, tail);
    stem + tail
  }

  /** In a name without line breaks, the substitution cuts the name at
      its first `.vcf` and puts `repl` there. */
  lemma SubVcfCutAtFirst(s: string, i: nat, repl: string)
    requires NoNewline(s)
    requires VcfAt(s, i)
    requires forall j :: 0 <= j < i ==> !VcfAt(s, j)
    ensures SubVcf(s, repl) == s[..i] + repl
  {
    NewlineFreeMatches(s, i);
    forall j | 0 <= j < i ensures !MatchesAt(s, j) {
      NewlineFreeMatches(s, j);
    }
    assert LineEnd(s) == |s|;
    SubVcfAt(s, i, repl);
    assert s[..i] + repl + s[|s|..] == s[..i] + repl;
  }

  /** Both names are built from the same base name: `SnpCsvName` replaces
      its tail by `.csv`, `AllelCsvName` removes it and appends the tag. */
  lemma SnpCsvNameOfBase(vcfFile: string)
    ensures SnpCsvName(vcfFile) == SubVcf(Basename(vcfFile), ".csv")
  {
  }

  lemma AllelCsvNameOfBase(vcfFile: string, how: Option<string>, n: Option<int>)
    ensures AllelCsvName(vcfFile, how, n) == SubVcf(Basename(vcfFile), "") + "." + SamplingLabel(how, n) + ".csv"
  {
  }

  /** For a base name without line breaks both names cut it before its
      first `.vcf`, whatever the letter case. */
  lemma CsvNamesCutAtFirstVcf(vcfFile: string, i: nat, how: Option<string>, n: Option<int>)
    requires NoNewline(Basename(vcfFile))
    requires VcfAt(Basename(vcfFile), i)
    requires forall j :: 0 <= j < i ==> !VcfAt(Basename(vcfFile), j)
    ensures SnpCsvName(vcfFile) == Basename(vcfFile)[..i] + ".csv"
    ensures AllelCsvName(vcfFile, how, n) == Basename(vcfFile)[..i] + "." + SamplingLabel(how, n) + ".csv"
  {
    SnpCsvNameOfBase(vcfFile);
    AllelCsvNameOfBase(vcfFile, how, n);
    var base := Basename(vcfFile);
    SubVcfCutAtFirst(base, i, ".csv");
    SubVcfCutAtFirst(base, i, "");
    assert base[..i] + "" == base[..i];
  }

  /** A base name with no `.vcf` in it is kept as it is. */
  lemma CsvNamesWithoutVcf(vcfFile: string, how: Option<string>, n: Option<int>)
    requires forall j: nat :: !VcfAt(Basename(vcfFile), j)
    ensures SnpCsvName(vcfFile) == Basename(vcfFile)
    ensures AllelCsvName(vcfFile, how, n) == Basename(vcfFile) + "." + SamplingLabel(how, n) + ".csv"
  {
    SnpCsvNameOfBase(vcfFile);
    AllelCsvNameOfBase(vcfFile, how, n);
    var base := Basename(vcfFile);
    assert forall j: nat :: !MatchesAt(base, j);
  }

  /** No `.vcf` starts inside a stem free of it when the text after the
      stem begins with `.`: a window overlapping the boundary would need a
      `.` where `.vcf` has a letter. */
  lemma NoVcfBeforeDot(stem: string, tail: string, j: nat)
    requires forall k: nat :: !VcfAt(stem, k)
    requires |tail| > 0 && tail[0] == '.'
    requires j < |stem|
    ensures !VcfAt(stem + tail, j)
  {
    var s := stem + tail;
    var i := |stem|;
    if j + 4 <= i {
      assert !VcfAt(stem, j);
    } else if j + 4 <= |s| {
      assert s[i] == '.' && LowerChar('.') == '.';
    }
  }

  /** A final line break survives the substitution: `$` matches before it. */
  lemma TrailingNewlineKept(stem: string)
    requires NoNewline(stem) && forall j: nat :: !VcfAt(stem, j)
    ensures SubVcf(stem + ".VCF.gz\n", ".csv") == stem + ".csv\n"
  {
    var tail := ".VCF.gz\n";
    var s := stem + tail;
    var i := |stem|;
    assert LineEnd(s) == |s| - 1 by {
      assert s[|s| - 1] == '\n';
    }
    assert MatchesAt(s, i) by {
      assert s[i..] == tail;
    }
    forall j | 0 <= j < i ensures !MatchesAt(s, j) {
      NoVcfBeforeDot(stem, tail, j);
    }
    SubVcfAt(s, i, ".csv");
    assert s[..i] == stem && s[LineEnd(s)..] == "\n";
  }
}
