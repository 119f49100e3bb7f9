/**
 * order_cog_dict from vol_est_yolov8/plotting/inference_results.py: the centres
 * of gravity keyed "0", "1", ..., "max_i - 1", listed in index order, with absent
 * keys skipped. Keys that are not such an index (the junction keys "0_1", "1_2"
 * of the segment mapping) never reach the list.
 */
module InferenceResults {
  import opened Decimal

  /** The values under the keys str(0), ..., str(maxI - 1) that are present, in that order. */
  function OrderedCogs<V>(cogs: map<string, V>, maxI: int): seq<V>
    decreases if maxI < 0 then 0 else maxI
  {
    if maxI <= 0 then []
    else OrderedCogs(cogs, maxI - 1)
         + (if NatToString(maxI - 1) in cogs then [cogs[NatToString(maxI - 1)]] else [])
  }

  /** The indices i in [0, maxI) whose key str(i) is present, ascending. */
  function PresentIndices<V>(cogs: map<string, V>, maxI: int): seq<nat>
    decreases if maxI < 0 then 0 else maxI
  {
    if maxI <= 0 then []
    else PresentIndices(cogs, maxI - 1) + (if NatToString(maxI - 1) in cogs then [maxI - 1] else [])
  }

  /** order_cog_dict: a loop over range(max_i) appending each present value. */
  method OrderCogDict<V>(cogs: map<string, V>, maxI: int) returns (ordered: seq<V>)
    ensures ordered == OrderedCogs(cogs, maxI)
  {
    ordered := [];
    var i := 0;
    while i < maxI
      invariant 0 <= i && (i <= maxI || i == 0)
      invariant ordered == OrderedCogs(cogs, i)
    {
      var key := NatToString(i);
      if key in cogs {
        ordered := ordered + [cogs[key]];
      }
      i := i + 1;
    }
  }

  /**
   * The indices listed are exactly those in [0, maxI) whose key is present, in
   * strictly ascending order.
   */
  lemma {:induction false} PresentIndicesExact<V>(cogs: map<string, V>, maxI: int)
    ensures forall i :: i in PresentIndices(cogs, maxI) <==> 0 <= i < maxI && NatToString(i) in cogs
    ensures forall j, k :: 0 <= j < k < |PresentIndices(cogs, maxI)| ==>
      PresentIndices(cogs, maxI)[j] < PresentIndices(cogs, maxI)[k]
    ensures forall j :: 0 <= j < |PresentIndices(cogs, maxI)| ==> PresentIndices(cogs, maxI)[j] < maxI
    decreases if maxI < 0 then 0 else maxI
  {
    if maxI > 0 {
      PresentIndicesExact(cogs, maxI - 1);
    }
  }

  /** The j-th value listed is the value under the key of the j-th present index. */
  lemma {:induction false} OrderedCogsAtPresentIndices<V>(cogs: map<string, V>, maxI: int)
    ensures |OrderedCogs(cogs, maxI)| == |PresentIndices(cogs, maxI)|
    ensures forall j :: 0 <= j < |OrderedCogs(cogs, maxI)| ==>
      NatToString(PresentIndices(cogs, maxI)[j]) in cogs
      && OrderedCogs(cogs, maxI)[j] == cogs[NatToString(PresentIndices(cogs, maxI)[j])]
    decreases if maxI < 0 then 0 else maxI
  {
    if maxI > 0 {
      OrderedCogsAtPresentIndices(cogs, maxI - 1);
    }
  }

  /** Every value listed is a value of the dictionary. */
  lemma OrderedCogsAreValues<V>(cogs: map<string, V>, maxI: int)
    ensures forall j :: 0 <= j < |OrderedCogs(cogs, maxI)| ==> OrderedCogs(cogs, maxI)[j] in cogs.Values
  {
    OrderedCogsAtPresentIndices(cogs, maxI);
  }

  /** The keys of the present indices. */
  ghost function PresentKeys<V>(cogs: map<string, V>, maxI: int): set<string>
  {
    set i | i in PresentIndices(cogs, maxI) :: NatToString(i)
  }

  lemma {:induction false} PresentKeysCount<V>(cogs: map<string, V>, maxI: int)
    ensures PresentKeys(cogs, maxI) <= cogs.Keys
    ensures |PresentKeys(cogs, maxI)| == |PresentIndices(cogs, maxI)|
    decreases if maxI < 0 then 0 else maxI
  {
    PresentIndicesExact(cogs, maxI);
    if maxI > 0 {
      PresentKeysCount(cogs, maxI - 1);
      PresentIndicesExact(cogs, maxI - 1);
      var prev := PresentKeys(cogs, maxI - 1);
      var key := NatToString(maxI - 1);
      if key in cogs {
        assert PresentIndices(cogs, maxI) == PresentIndices(cogs, maxI - 1) + [maxI - 1];
        assert PresentKeys(cogs, maxI) == prev + {key};
        forall i | i in PresentIndices(cogs, maxI - 1) ensures NatToString(i) != key {
          NatToStringInjective(i, maxI - 1);
        }
        assert key !in prev;
      } else {
        assert PresentIndices(cogs, maxI) == PresentIndices(cogs, maxI - 1);
      }
    }
  }

  lemma {:induction false} SubsetCardinality<T>(a: set<T>, b: set<T>)
    requires a <= b
    ensures |a| <= |b|
    decreases |b|
  {
    if a != {} {
      var x :| x in a;
      SubsetCardinality(a - {x}, b - {x});
    }
  }

  /** The list is no longer than max_i (so it is empty for max_i <= 0), nor than the number of keys of the dictionary. */
  lemma OrderedCogsLength<V>(cogs: map<string, V>, maxI: int)
    ensures |OrderedCogs(cogs, maxI)| <= if maxI < 0 then 0 else maxI
    ensures |OrderedCogs(cogs, maxI)| <= |cogs|
  {
    OrderedCogsAtPresentIndices(cogs, maxI);
    PresentIndicesLength(cogs, maxI);
    PresentKeysCount(cogs, maxI);
    SubsetCardinality(PresentKeys(cogs, maxI), cogs.Keys);
  }

  lemma {:induction false} PresentIndicesLength<V>(cogs: map<string, V>, maxI: int)
    ensures |PresentIndices(cogs, maxI)| <= if maxI < 0 then 0 else maxI
    decreases if maxI < 0 then 0 else maxI
  {
    if maxI > 0 {
      PresentIndicesLength(cogs, maxI - 1);
    }
  }

  /** A key with a character that is not a digit (such as "0_1") never affects the list. */
  lemma {:induction false} NonIndexKeyIgnored<V>(cogs: map<string, V>, maxI: int, key: string, value: V, j: nat)
    requires j < |key| && !IsDigit(key[j])
    ensures OrderedCogs(cogs[key := value], maxI) == OrderedCogs(cogs, maxI)
    ensures OrderedCogs(cogs - {key}, maxI) == OrderedCogs(cogs, maxI)
    decreases if maxI < 0 then 0 else maxI
  {
    if maxI > 0 {
      NonIndexKeyIgnored(cogs, maxI - 1, key, value, j);
      NotADecimalKey(key, j, maxI - 1);
    }
  }

  /** The junction keys of the segment mapping are skipped. */
  lemma JunctionKeysIgnored<V>(cogs: map<string, V>, maxI: int, a: V, b: V)
    ensures OrderedCogs(cogs["0_1" := a]["1_2" := b], maxI) == OrderedCogs(cogs, maxI)
  {
    NonIndexKeyIgnored(cogs["0_1" := a], maxI, "1_2", b, 1);
    NonIndexKeyIgnored(cogs, maxI, "0_1", a, 1);
  }
}
