/**
 * The frontmatter of a post: a JavaScript object from keys to values, kept
 * as an ordered list of entries because both serialisers and the parser work
 * in the object's key order (insertion order).
 */
module FrontmatterData {
  import opened Wrappers
  import Text

  /** An element of a frontmatter array: a string, or another JSON value of which
      the model keeps its `JSON.stringify` text and its `String()` text. */
  datatype Elem = EStr(s: string) | EOther(json: string, text: string)

  /** A frontmatter value. `Other` stands for every other JavaScript value (a number,
      null, an object, undefined); the model keeps only whether it is truthy. */
  datatype Value = Str(s: string) | Bool(b: bool) | List(elems: seq<Elem>) | Other(truthy: bool)

  datatype Entry = Entry(key: string, value: Value)

  /** JavaScript truthiness: empty strings and `false` are falsy, arrays never are. */
  predicate Truthy(v: Value) {
    match v
    case Str(s) => s != ""
    case Bool(b) => b
    case List(_) => true
    case Other(t) => t
  }

  /** `Object.keys`. */
  function Keys(fm: seq<Entry>): (ks: seq<string>)
    ensures |ks| == |fm|
    ensures forall i :: 0 <= i < |fm| ==> ks[i] == fm[i].key
  {
    seq(|fm|, i requires 0 <= i < |fm| => fm[i].key)
  }

  /** An object never holds a key twice. */
  predicate UniqueKeys(fm: seq<Entry>) {
    forall i, j :: 0 <= i < j < |fm| ==> fm[i].key != fm[j].key
  }

  /** `fm[k]`, with `None` for a key that is not `in fm`. */
  function Lookup(fm: seq<Entry>, k: string): (r: Option<Value>)
    ensures r.None? <==> k !in Keys(fm)
    ensures UniqueKeys(fm) ==> forall i :: 0 <= i < |fm| && fm[i].key == k ==> r == Some(fm[i].value)
  {
    if fm == [] then None
    else if fm[0].key == k then Some(fm[0].value)
    else
      assert k in Keys(fm) <==> k in Keys(fm[1..]) by {
        forall i | 0 <= i < |fm[1..]| ensures Keys(fm[1..])[i] == Keys(fm)[i + 1] {
        }
        assert Keys(fm)[0] != k;
      }
      assert UniqueKeys(fm) ==> UniqueKeys(fm[1..]) by {
        forall i, j | 0 <= i < j < |fm[1..]| ensures fm[1..][i] == fm[i + 1] && fm[1..][j] == fm[j + 1] {
        }
      }
      Lookup(fm[1..], k)
  }

  /** A key that is found is found at some entry of the object. */
  lemma {:induction false} LookupFound(fm: seq<Entry>, k: string)
    requires Lookup(fm, k).Some?
    ensures exists i :: 0 <= i < |fm| && fm[i] == Entry(k, Lookup(fm, k).value)
  {
    if fm[0].key != k {
      LookupFound(fm[1..], k);
      var i :| 0 <= i < |fm[1..]| && fm[1..][i] == Entry(k, Lookup(fm, k).value);
      assert fm[i + 1] == fm[1..][i];
    }
  }

  /** `fm[k] = v`: an existing key keeps its place and takes the new value, a new key goes last. */
  function Put(fm: seq<Entry>, k: string, v: Value): seq<Entry> {
    if fm == [] then [Entry(k, v)]
    else if fm[0].key == k then [Entry(k, v)] + fm[1..]
    else [fm[0]] + Put(fm[1..], k, v)
  }

  lemma UniqueKeysTail(fm: seq<Entry>)
    requires fm != []
    ensures UniqueKeys(fm) ==> UniqueKeys(fm[1..]) && fm[0].key !in Keys(fm[1..])
  {
  }

  /** After `fm[k] = v`, `k` reads `v` and every other key reads what it read before. */
  lemma {:induction false} PutLookup(fm: seq<Entry>, k: string, v: Value)
    ensures Lookup(Put(fm, k, v), k) == Some(v)
    ensures forall j :: j != k ==> Lookup(Put(fm, k, v), j) == Lookup(fm, j)
  {
    if fm != [] && fm[0].key != k {
      PutLookup(fm[1..], k, v);
    }
  }

  lemma KeysCons(e: Entry, rest: seq<Entry>)
    ensures Keys([e] + rest) == [e.key] + Keys(rest)
  {
  }

  /** `fm[k] = v` leaves the key order alone, except that a new key is appended. */
  lemma {:induction false} PutKeys(fm: seq<Entry>, k: string, v: Value)
    ensures Keys(Put(fm, k, v)) == if k in Keys(fm) then Keys(fm) else Keys(fm) + [k]
  {
    if fm == [] {
      assert Keys([Entry(k, v)]) == [k];
    } else {
      var rest := fm[1..];
      assert fm == [fm[0]] + rest;
      KeysCons(fm[0], rest);
      if fm[0].key == k {
        KeysCons(Entry(k, v), rest);
      } else {
        PutKeys(rest, k, v);
        KeysCons(fm[0], Put(rest, k, v));
        if k !in Keys(rest) {
          assert [fm[0].key] + (Keys(rest) + [k]) == [fm[0].key] + Keys(rest) + [k];
        }
      }
    }
  }

  /** `fm[k] = v` on a new key appends the entry. */
  lemma {:induction false} PutNew(fm: seq<Entry>, k: string, v: Value)
    requires k !in Keys(fm)
    ensures Put(fm, k, v) == fm + [Entry(k, v)]
  {
    if fm != [] {
      var rest := fm[1..];
      assert fm == [fm[0]] + rest;
      KeysCons(fm[0], rest);
      PutNew(rest, k, v);
      assert Put(fm, k, v) == [fm[0]] + (rest + [Entry(k, v)]);
      Text.ConcatAssoc([fm[0]], rest, [Entry(k, v)]);
    }
  }

  /** `fm[k] = v` never produces a duplicate key. */
  lemma PutUnique(fm: seq<Entry>, k: string, v: Value)
    requires UniqueKeys(fm)
    ensures UniqueKeys(Put(fm, k, v))
  {
    PutKeys(fm, k, v);
    var r := Put(fm, k, v);
    var ks := Keys(r);
    assert forall i, j :: 0 <= i < j < |r| ==> ks[i] != ks[j];
  }

  /** `{...base, ...updates}`: the entries of `updates` put into `base` in order. */
  function Merge(base: seq<Entry>, updates: seq<Entry>): seq<Entry>
    decreases |updates|
  {
    if updates == [] then base
    else Merge(Put(base, updates[0].key, updates[0].value), updates[1..])
  }

  /** A spread merge: every key of `updates` takes its value there, and every
      other key keeps its value from `base`. */
  lemma {:induction false} MergeLookup(base: seq<Entry>, updates: seq<Entry>)
    requires UniqueKeys(updates)
    ensures forall k :: Lookup(Merge(base, updates), k) ==
                        if k in Keys(updates) then Lookup(updates, k) else Lookup(base, k)
    decreases |updates|
  {
    if updates != [] {
      var u := updates[0];
      var next := Put(base, u.key, u.value);
      PutLookup(base, u.key, u.value);
      UniqueKeysTail(updates);
      MergeLookup(next, updates[1..]);
      assert Keys(updates) == [u.key] + Keys(updates[1..]);
    }
  }

  /** The keys of `base` keep their places at the front of a merge. */
  lemma {:induction false} MergeKeepsOrder(base: seq<Entry>, updates: seq<Entry>)
    ensures |Merge(base, updates)| >= |base| && Keys(Merge(base, updates))[..|base|] == Keys(base)
    decreases |updates|
  {
    if updates != [] {
      var u := updates[0];
      var next := Put(base, u.key, u.value);
      PutKeys(base, u.key, u.value);
      MergeKeepsOrder(next, updates[1..]);
      assert Keys(next)[..|base|] == Keys(base);
      assert Keys(Merge(base, updates))[..|next|][..|base|] == Keys(Merge(base, updates))[..|base|];
    }
  }

  /** A merge into an object is an object: no key twice. */
  lemma {:induction false} MergeUnique(base: seq<Entry>, updates: seq<Entry>)
    requires UniqueKeys(base)
    ensures UniqueKeys(Merge(base, updates))
    decreases |updates|
  {
    if updates != [] {
      PutUnique(base, updates[0].key, updates[0].value);
      MergeUnique(Put(base, updates[0].key, updates[0].value), updates[1..]);
    }
  }
}
