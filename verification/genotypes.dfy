/** The genotype encoding both scripts apply: the genotype library packs
    each diploid call into one byte, and the scripts then turn the packed
    values 16 and 17 into 1 and 2, leaving every other packed value as it
    is. */
module Genotypes {
  import opened Variants

  /** The library's packing of a call into one value. Its bit layout is not
      visible here, so it is a parameter of the model, constrained only by
      what the scripts rely on (`ValidPacking`). */
  type Packing = Call -> int

  /** Both alleles are the reference (0) or the first alternate (1). */
  predicate IsBiallelic(c: Call) {
    && (c.first == Idx(0) || c.first == Idx(1))
    && (c.second == Idx(0) || c.second == Idx(1))
  }

  /** The four 0/1 calls pack to 0, 1, 16 and 17, and no other call packs to
      16 or 17. */
  ghost predicate ValidPacking(pack: Packing) {
    && pack(Call(Idx(0), Idx(0))) == 0
    && pack(Call(Idx(0), Idx(1))) == 1
    && pack(Call(Idx(1), Idx(0))) == 16
    && pack(Call(Idx(1), Idx(1))) == 17
    && forall c :: !IsBiallelic(c) ==> pack(c) != 16 && pack(c) != 17
  }

  /** `gt_coded[gt_coded == 16] = 1; gt_coded[gt_coded == 17] = 2`. */
  function Remap(packed: int): (code: int)
    ensures code != 16 && code != 17
    ensures packed != 16 && packed != 17 ==> code == packed
  {
    if packed == 16 then 1 else if packed == 17 then 2 else packed
  }

  /** Remapping a remapped value changes nothing more. */
  lemma RemapIdempotent(packed: int)
    ensures Remap(Remap(packed)) == Remap(packed)
  {
  }

  /** The code of one call. For a 0/1 call it is the number of alternate
      alleles (0, 1 or 2, with both heterozygous orders giving 1); any
      other call, including a half-missing or fully missing one, keeps its
      packed value unchanged. */
  function Code(pack: Packing, c: Call): (code: int)
    ensures ValidPacking(pack) && IsBiallelic(c) ==> code == Hits(c, 1)
    ensures ValidPacking(pack) && !IsBiallelic(c) ==> code == pack(c)
  {
    Remap(pack(c))
  }

  /** The codes of one site, in sample order. */
  function Codes(pack: Packing, calls: seq<Call>): (row: seq<int>)
    ensures |row| == |calls|
    ensures forall s :: 0 <= s < |calls| ==> row[s] == Code(pack, calls[s])
  {
    seq(|calls|, s requires 0 <= s < |calls| => Code(pack, calls[s]))
  }

  /** The six calls 0/0, 0/1, 1/1, ./., 0/. and 1/. encode to 0, 1, 2 and
      then the three packed values unchanged: half-missing calls are not
      turned into 1 or 2. */
  lemma MixedCallsExample(pack: Packing)
    requires ValidPacking(pack)
    ensures
      var calls := [Call(Idx(0), Idx(0)), Call(Idx(0), Idx(1)), Call(Idx(1), Idx(1)),
                    Call(Missing, Missing), Call(Idx(0), Missing), Call(Idx(1), Missing)];
      Codes(pack, calls) ==
        [0, 1, 2, pack(Call(Missing, Missing)), pack(Call(Idx(0), Missing)), pack(Call(Idx(1), Missing))]
  {
    var calls := [Call(Idx(0), Idx(0)), Call(Idx(0), Idx(1)), Call(Idx(1), Idx(1)),
                  Call(Missing, Missing), Call(Idx(0), Missing), Call(Idx(1), Missing)];
    assert !IsBiallelic(calls[3]) && !IsBiallelic(calls[4]) && !IsBiallelic(calls[5]);
  }
}
