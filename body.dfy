/** The JSON body of a POST request: each parsed pair is inserted, in command
    line order, into a fresh hash map, so a repeated key ends with the value
    of its last occurrence. */
module PostBody {
  import opened Wrappers
  import opened KvPairs

  /** Reference definition: the map that inserting the pairs one after the
      other into an empty map yields (a fold from the left). */
  function BodyOf(pairs: seq<KvPair>): map<string, string>
  {
    if pairs == [] then map[]
    else
      var last := pairs[|pairs| - 1];
      BodyOf(pairs[..|pairs| - 1])[last.k := last.v]
  }

  /** The keys that occur in `pairs`. */
  ghost function KeysOf(pairs: seq<KvPair>): set<string>
  {
    set i | 0 <= i < |pairs| :: pairs[i].k
  }

  /** No key occurs twice in `pairs`. */
  ghost predicate DistinctKeys(pairs: seq<KvPair>)
  {
    forall i, j :: 0 <= i < j < |pairs| ==> pairs[i].k != pairs[j].k
  }

  /** The loop of `post`: `body.insert(k, v)` for every pair, in order. */
  method BuildBody(pairs: seq<KvPair>) returns (body: map<string, string>)
    ensures body == BodyOf(pairs)
  {
    body := map[];
    for i := 0 to |pairs|
      invariant body == BodyOf(pairs[..i])
    {
      assert pairs[..i + 1][..i] == pairs[..i];
      body := body[pairs[i].k := pairs[i].v];
    }
    assert pairs[..|pairs|] == pairs;
  }

  /** Every key of the pairs is in the body, and no other key is. */
  lemma {:induction false} BodyKeys(pairs: seq<KvPair>)
    ensures BodyOf(pairs).Keys == KeysOf(pairs)
    decreases |pairs|
  {
    if pairs != [] {
      var n := |pairs| - 1;
      var init := pairs[..n];
      BodyKeys(init);
      assert KeysOf(pairs) == KeysOf(init) + {pairs[n].k} by {
        forall key | key in KeysOf(pairs) ensures key in KeysOf(init) + {pairs[n].k} {
          var i :| 0 <= i < |pairs| && pairs[i].k == key;
          if i < n {
            assert init[i].k == key;
          }
        }
        forall key | key in KeysOf(init) ensures key in KeysOf(pairs) {
          var i :| 0 <= i < |init| && init[i].k == key;
          assert pairs[i].k == key;
        }
      }
    }
  }

  /** Last write wins: a pair whose key does not occur again later gives the
      value that key has in the body. */
  lemma {:induction false} LastWriteWins(pairs: seq<KvPair>, i: nat)
    requires i < |pairs|
    requires forall j :: i < j < |pairs| ==> pairs[j].k != pairs[i].k
    ensures pairs[i].k in BodyOf(pairs)
    ensures BodyOf(pairs)[pairs[i].k] == pairs[i].v
    decreases |pairs|
  {
    var n := |pairs| - 1;
    if i < n {
      var init := pairs[..n];
      assert forall j :: i < j < |init| ==> init[j].k != init[i].k;
      LastWriteWins(init, i);
    }
  }

  /** Every value in the body comes from a pair with that key and no later
      pair has that key. */
  lemma {:induction false} BodyValueIsLastOccurrence(pairs: seq<KvPair>, key: string)
    requires key in BodyOf(pairs)
    ensures exists i :: 0 <= i < |pairs| && pairs[i] == KvPair(key, BodyOf(pairs)[key])
                        && forall j :: i < j < |pairs| ==> pairs[j].k != key
    decreases |pairs|
  {
    var n := |pairs| - 1;
    var init := pairs[..n];
    if pairs[n].k == key {
      assert pairs[n] == KvPair(key, BodyOf(pairs)[key]);
    } else {
      BodyValueIsLastOccurrence(init, key);
      var i :| 0 <= i < |init| && init[i] == KvPair(key, BodyOf(init)[key])
               && forall j :: i < j < |init| ==> init[j].k != key;
      assert pairs[i] == KvPair(key, BodyOf(pairs)[key]);
    }
  }

  /** The body has at most one entry per pair, and exactly one per pair
      precisely when no key is repeated. */
  lemma {:induction false} BodySize(pairs: seq<KvPair>)
    ensures |BodyOf(pairs)| <= |pairs|
    ensures |BodyOf(pairs)| == |pairs| <==> DistinctKeys(pairs)
    decreases |pairs|
  {
    if pairs != [] {
      var n := |pairs| - 1;
      var init := pairs[..n];
      var last := pairs[n];
      var b := BodyOf(init);
      BodySize(init);
      BodyKeys(init);
      if last.k in b {
        assert BodyOf(pairs).Keys == b.Keys;
        var i :| 0 <= i < |init| && init[i].k == last.k;
        assert pairs[i].k == pairs[n].k;
      } else {
        assert BodyOf(pairs).Keys == b.Keys + {last.k};
        assert DistinctKeys(pairs) <==> DistinctKeys(init) by {
          if DistinctKeys(init) {
            forall i, j | 0 <= i < j < |pairs| ensures pairs[i].k != pairs[j].k {
              if j < n {
                assert init[i].k != init[j].k;
              } else {
                assert init[i].k in KeysOf(init);
              }
            }
          }
          if DistinctKeys(pairs) {
            forall i, j | 0 <= i < j < |init| ensures init[i].k != init[j].k {
              assert pairs[i].k != pairs[j].k;
            }
          }
        }
      }
    }
  }

  /** A body built from parsed tokens has no `=` in any key or value. */
  lemma BodyFromParsedTokens(tokens: seq<string>, pairs: seq<KvPair>)
    requires |tokens| == |pairs|
    requires forall i :: 0 <= i < |tokens| ==> ParseKvPair(tokens[i]) == Ok(pairs[i])
    ensures forall key :: key in BodyOf(pairs) ==> Separator !in key && Separator !in BodyOf(pairs)[key]
  {
    forall key | key in BodyOf(pairs)
      ensures Separator !in key && Separator !in BodyOf(pairs)[key]
    {
      BodyValueIsLastOccurrence(pairs, key);
    }
  }

  /** Two distinct keys give a two-entry body; a repeated key keeps the later value. */
  lemma ExampleBodies()
    ensures BodyOf([KvPair("name", "tom"), KvPair("age", "18")]) == map["name" := "tom", "age" := "18"]
    ensures BodyOf([KvPair("name", "tom"), KvPair("name", "jerry")]) == map["name" := "jerry"]
  {
    var two := [KvPair("name", "tom"), KvPair("age", "18")];
    assert two[..1] == [KvPair("name", "tom")];
    assert two[..1][..0] == [];
    var again := [KvPair("name", "tom"), KvPair("name", "jerry")];
    assert again[..1] == [KvPair("name", "tom")];
    assert again[..1][..0] == [];
  }
}
