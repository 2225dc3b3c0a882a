/**
 * The `HashMap<String, RecognitionData>` that holds the enrolled faces in
 * memory, as a sequence of entries. The sequence order stands for the map's
 * iteration order, which decides ties when matching; keys are unique.
 */
module KnownFaces {
  import opened Wrappers
  import opened Recognition

  datatype Entry = Entry(name: string, data: RecognitionData)

  type Gallery = seq<Entry>

  /** A map has each key at most once. */
  predicate UniqueNames(g: Gallery) {
    forall i, j | 0 <= i < j < |g| :: g[i].name != g[j].name
  }

  /** `get(name)`: the value of the entry with that key, if any. */
  function Get(g: Gallery, name: string): (r: Option<RecognitionData>)
    ensures r.Some? <==> exists i | 0 <= i < |g| :: g[i].name == name
    ensures r.Some? ==> exists i | 0 <= i < |g| :: g[i] == Entry(name, r.value)
  {
    if g == [] then None
    else if g[0].name == name then Some(g[0].data)
    else
      var r := Get(g[1..], name);
      assert forall i | 0 <= i < |g[1..]| :: g[1..][i] == g[i + 1];
      r
  }

  /** In a map, the entry at a key's position is what `get` returns. */
  lemma {:induction false} GetAt(g: Gallery, i: nat)
    requires UniqueNames(g) && i < |g|
    ensures Get(g, g[i].name) == Some(g[i].data)
  {
    if i > 0 {
      assert g[0].name != g[i].name;
      assert g[1..][i - 1] == g[i];
      GetAt(g[1..], i - 1);
    }
  }

  /**
   * `put(name, data)`: the value of an existing key is replaced where it
   * stands; a new key is added after the others.
   */
  function Put(g: Gallery, name: string, data: RecognitionData): (r: Gallery)
    requires UniqueNames(g)
    ensures |r| == |g| || |r| == |g| + 1
    ensures forall i | 0 <= i < |g| :: r[i] == (if g[i].name == name then Entry(name, data) else g[i])
    ensures |r| == |g| + 1 <==> Get(g, name).None?
    ensures |r| == |g| + 1 ==> r[|g|] == Entry(name, data)
  {
    if g == [] then [Entry(name, data)]
    else if g[0].name == name then [Entry(name, data)] + g[1..]
    else [g[0]] + Put(g[1..], name, data)
  }

  /** After `put`, the key maps to the new value, every other key keeps its value, and keys stay unique. */
  lemma PutSemantics(g: Gallery, name: string, data: RecognitionData)
    requires UniqueNames(g)
    ensures UniqueNames(Put(g, name, data))
    ensures Get(Put(g, name, data), name) == Some(data)
    ensures forall other | other != name :: Get(Put(g, name, data), other) == Get(g, other)
  {
    PutKeepsUnique(g, name, data);
    var r := Put(g, name, data);
    forall other | other != name
      ensures Get(r, other) == Get(g, other)
    {
      PutOther(g, name, data, other);
    }
  }

  lemma PutKeepsUnique(g: Gallery, name: string, data: RecognitionData)
    requires UniqueNames(g)
    ensures UniqueNames(Put(g, name, data))
    ensures Get(Put(g, name, data), name) == Some(data)
  {
    var r := Put(g, name, data);
    assert forall i | 0 <= i < |r| :: r[i].name == (if i < |g| then g[i].name else name);
    assert UniqueNames(r);
    if Get(g, name).Some? {
      var i :| 0 <= i < |g| && g[i].name == name;
      assert r[i] == Entry(name, data);
      GetAt(r, i);
    } else {
      assert r[|g|] == Entry(name, data);
      GetAt(r, |g|);
    }
  }

  lemma PutOther(g: Gallery, name: string, data: RecognitionData, other: string)
    requires UniqueNames(g) && UniqueNames(Put(g, name, data)) && other != name
    ensures Get(Put(g, name, data), other) == Get(g, other)
  {
    var r := Put(g, name, data);
    if Get(g, other).Some? {
      var i :| 0 <= i < |g| && g[i].name == other;
      GetAt(g, i);
      GetAt(r, i);
    } else {
      assert forall i | 0 <= i < |r| :: r[i].name != other by {
        forall i | 0 <= i < |r| ensures r[i].name != other {
          if i < |g| { assert r[i].name == name || r[i] == g[i]; }
        }
      }
    }
  }

  /** A key the map does not hold is added after the others. */
  lemma PutAppends(g: Gallery, name: string, data: RecognitionData)
    requires UniqueNames(g)
    requires forall k | 0 <= k < |g| :: g[k].name != name
    ensures Put(g, name, data) == g + [Entry(name, data)]
    ensures UniqueNames(g + [Entry(name, data)])
  {
  }
}
