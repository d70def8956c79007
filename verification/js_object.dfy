/**
 A plain JavaScript object whose keys are ordinary (non array-index) strings,
 seen as the list of its own properties in insertion order, which is the
 order spread syntax and `URLSearchParams` enumerate them in. A real object
 never lists a key twice (`DistinctKeys`); the operations below keep that.
 */
module JsObject {
  import opened Wrappers

  type Pair = (string, string)

  type Obj = seq<Pair>

  /** No key is listed twice. */
  predicate DistinctKeys(ps: seq<Pair>) {
    forall i, j :: 0 <= i < j < |ps| ==> ps[i].0 != ps[j].0
  }

  /** JavaScript truthiness of a string that may be absent: present and not empty. */
  predicate Truthy(v: Option<string>) {
    v.Some? && v.value != ""
  }

  /** The keys in enumeration order. */
  function Keys(ps: seq<Pair>): (ks: seq<string>)
    ensures |ks| == |ps|
    ensures forall i :: 0 <= i < |ps| ==> ks[i] == ps[i].0
  {
    if |ps| == 0 then [] else [ps[0].0] + Keys(ps[1..])
  }

  /** The value of the first property named `k`, as `obj[k]` reads it. */
  function Lookup(ps: seq<Pair>, k: string): Option<string>
  {
    if |ps| == 0 then None
    else if ps[0].0 == k then Some(ps[0].1)
    else Lookup(ps[1..], k)
  }

  /** How many listed properties are named `k`. */
  function Occurrences(ps: seq<Pair>, k: string): nat
  {
    if |ps| == 0 then 0
    else (if ps[0].0 == k then 1 else 0) + Occurrences(ps[1..], k)
  }

  /**
   Property assignment `obj[k] = v` (and a later `k` in an object literal or
   after a spread): an existing property keeps its position and takes the
   new value; a new property is appended after all others.
   */
  function Assign(o: Obj, k: string, v: string): (r: Obj)
    ensures k !in Keys(o) ==> r == o + [(k, v)]
    ensures k in Keys(o) ==> Keys(r) == Keys(o)
  {
    if |o| == 0 then [(k, v)]
    else if o[0].0 == k then [(k, v)] + o[1..]
    else
      var t := Assign(o[1..], k, v);
      assert Keys(o) == [o[0].0] + Keys(o[1..]);
      assert o == [o[0]] + o[1..];
      [o[0]] + t
  }

  /** After `obj[k] = v`, reading `k` gives `v` and every other key reads as before. */
  lemma {:induction false} AssignLookup(o: Obj, k: string, v: string)
    ensures Lookup(Assign(o, k, v), k) == Some(v)
    ensures forall k' :: k' != k ==> Lookup(Assign(o, k, v), k') == Lookup(o, k')
  {
    if |o| > 0 && o[0].0 != k {
      AssignLookup(o[1..], k, v);
    }
  }

  /** Assignment to a key that is listed rewrites that entry only. */
  lemma {:induction false} AssignExisting(o: Obj, k: string, v: string)
    requires DistinctKeys(o)
    requires k in Keys(o)
    ensures |Assign(o, k, v)| == |o|
    ensures forall i :: 0 <= i < |o| ==> Assign(o, k, v)[i] == if o[i].0 == k then (k, v) else o[i]
  {
    if o[0].0 != k {
      assert Keys(o) == [o[0].0] + Keys(o[1..]);
      AssignExisting(o[1..], k, v);
    }
  }

  /** Assignment keeps the keys distinct. */
  lemma AssignDistinct(o: Obj, k: string, v: string)
    requires DistinctKeys(o)
    ensures DistinctKeys(Assign(o, k, v))
  {
    var r := Assign(o, k, v);
    if k in Keys(o) {
      assert Keys(r) == Keys(o);
      forall i, j | 0 <= i < j < |r| ensures r[i].0 != r[j].0 {
        assert r[i].0 == Keys(r)[i] == o[i].0 && r[j].0 == Keys(r)[j] == o[j].0;
      }
    }
  }

  /** Assignment keeps every listed key in its position. */
  lemma AssignKeepsKeys(o: Obj, k: string, v: string)
    ensures |Assign(o, k, v)| >= |o|
    ensures forall i :: 0 <= i < |o| ==> Assign(o, k, v)[i].0 == o[i].0
  {
    var r := Assign(o, k, v);
    if k in Keys(o) {
      assert Keys(r) == Keys(o);
      forall i | 0 <= i < |o| ensures r[i].0 == o[i].0 {
        assert r[i].0 == Keys(r)[i] == o[i].0;
      }
    }
  }

  /** After an assignment and anything appended, the original keys still lead, in order. */
  lemma AssignKeysLead(o: Obj, k: string, v: string, tail: Obj)
    ensures Keys(Assign(o, k, v) + tail)[..|o|] == Keys(o)
  {
    var r := Assign(o, k, v) + tail;
    AssignKeepsKeys(o, k, v);
    forall i | 0 <= i < |o| ensures Keys(r)[i] == Keys(o)[i] {
      assert Keys(r)[i] == r[i].0;
    }
  }

  /** A key that is listed in an object with distinct keys is listed exactly once. */
  lemma {:induction false} OccursOnce(o: Obj, k: string)
    requires DistinctKeys(o)
    requires k in Keys(o)
    ensures Occurrences(o, k) == 1
  {
    assert Keys(o) == [o[0].0] + Keys(o[1..]);
    if o[0].0 == k {
      NotListed(o[1..], k);
    } else {
      OccursOnce(o[1..], k);
    }
  }

  /** With distinct keys, reading the key of entry `i` gives that entry's value. */
  lemma {:induction false} LookupAt(ps: seq<Pair>, i: nat)
    requires DistinctKeys(ps)
    requires i < |ps|
    ensures Lookup(ps, ps[i].0) == Some(ps[i].1)
  {
    if i > 0 {
      assert ps[0].0 != ps[i].0;
      assert DistinctKeys(ps[1..]) by {
        forall a, b | 0 <= a < b < |ps[1..]| ensures ps[1..][a].0 != ps[1..][b].0 {
          assert ps[1..][a] == ps[a + 1] && ps[1..][b] == ps[b + 1];
        }
      }
      LookupAt(ps[1..], i - 1);
      assert ps[1..][i - 1] == ps[i];
    }
  }

  /** A key that is not listed occurs nowhere. */
  lemma {:induction false} NotListed(ps: seq<Pair>, k: string)
    requires k !in Keys(ps)
    ensures Occurrences(ps, k) == 0
    ensures Lookup(ps, k) == None
  {
    if |ps| > 0 {
      assert Keys(ps) == [ps[0].0] + Keys(ps[1..]);
      NotListed(ps[1..], k);
    }
  }

  /** `k in obj` holds exactly when reading `obj[k]` finds a value. */
  lemma {:induction false} LookupFindsListed(ps: seq<Pair>, k: string)
    ensures Lookup(ps, k).Some? <==> k in Keys(ps)
  {
    if |ps| > 0 {
      assert Keys(ps) == [ps[0].0] + Keys(ps[1..]);
      LookupFindsListed(ps[1..], k);
    }
  }

  /** Occurrences of a key in a concatenation add up. */
  lemma {:induction false} OccurrencesAppend(a: seq<Pair>, b: seq<Pair>, k: string)
    ensures Occurrences(a + b, k) == Occurrences(a, k) + Occurrences(b, k)
  {
    if |a| > 0 {
      assert (a + b)[1..] == a[1..] + b;
      OccurrencesAppend(a[1..], b, k);
    } else {
      assert a + b == b;
    }
  }
}
