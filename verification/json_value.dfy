/**
 * Decoded JSON values, as the matcher and the spec validator receive them
 * from Python's json module: objects, lists, strings, integers, booleans and
 * null. Floats are not modelled.
 */
module JsonValue {
  import opened Wrappers

  /** An object keeps its members in insertion order, which is the order in
      which a Python dict iterates them. */
  datatype Value =
    | Null
    | Bool(b: bool)
    | Int(i: int)
    | Str(s: string)
    | Arr(items: seq<Value>)
    | Obj(fields: seq<(string, Value)>)
  {
    predicate IsScalar() {
      !Arr? && !Obj?
    }
  }

  /** The set of keys of an object's members. */
  function Keys(fields: seq<(string, Value)>): (ks: set<string>)
    ensures forall i :: 0 <= i < |fields| ==> fields[i].0 in ks
    ensures forall k :: k in ks ==> exists i :: 0 <= i < |fields| && fields[i].0 == k
  {
    set i | 0 <= i < |fields| :: fields[i].0
  }

  /** Dictionary lookup: the value of the first member with key `k`. */
  function Lookup(fields: seq<(string, Value)>, k: string): Option<Value> {
    if |fields| == 0 then None
    else if fields[0].0 == k then Some(fields[0].1)
    else Lookup(fields[1..], k)
  }

  /** A lookup finds a value exactly when the key is among the object's keys. */
  lemma {:induction false} LookupIffKeys(fields: seq<(string, Value)>, k: string)
    ensures Lookup(fields, k).Some? <==> k in Keys(fields)
  {
    if |fields| > 0 && fields[0].0 != k {
      assert Keys(fields) == {fields[0].0} + Keys(fields[1..]) by {
        assert forall i :: 0 < i < |fields| ==> fields[i] == fields[1..][i - 1];
      }
      LookupIffKeys(fields[1..], k);
    }
  }

  /** `fields[k]` for a key the object is known to hold. */
  function Subscript(fields: seq<(string, Value)>, k: string): Value
    requires k in Keys(fields)
  {
    LookupIffKeys(fields, k);
    Lookup(fields, k).value
  }

  /** A successful lookup returns the value of a member with that key, and
      no key of a member is missing from the lookup. */
  lemma {:induction false} LookupFindsMember(fields: seq<(string, Value)>, k: string)
    ensures Lookup(fields, k).Some? ==> exists i :: 0 <= i < |fields| && fields[i] == (k, Lookup(fields, k).value)
    ensures forall i :: 0 <= i < |fields| && fields[i].0 == k ==> Lookup(fields, k).Some?
  {
    if |fields| > 0 && fields[0].0 != k {
      LookupFindsMember(fields[1..], k);
      if Lookup(fields, k).Some? {
        var i :| 0 <= i < |fields[1..]| && fields[1..][i] == (k, Lookup(fields, k).value);
        assert fields[i + 1] == (k, Lookup(fields, k).value);
      }
    }
  }

  /** Keys are unique at every level, as in any value a Python dict can hold. */
  predicate WellFormed(v: Value)
    decreases v
  {
    match v
    case Arr(items) => forall i :: 0 <= i < |items| ==> WellFormed(items[i])
    case Obj(fields) =>
      && (forall i, j :: 0 <= i < j < |fields| ==> fields[i].0 != fields[j].0)
      && (forall i :: 0 <= i < |fields| ==> WellFormed(fields[i].1))
    case _ => true
  }

  /** In a well-formed object the lookup finds the member at its position. */
  lemma {:induction false} LookupUnique(fields: seq<(string, Value)>, i: nat)
    requires i < |fields|
    requires forall p, q :: 0 <= p < q < |fields| ==> fields[p].0 != fields[q].0
    ensures Lookup(fields, fields[i].0) == Some(fields[i].1)
    decreases i
  {
    if i > 0 {
      var rest := fields[1..];
      assert rest[i - 1] == fields[i];
      forall p, q | 0 <= p < q < |rest|
        ensures rest[p].0 != rest[q].0
      {
        assert rest[p] == fields[p + 1] && rest[q] == fields[q + 1];
      }
      assert fields[0].0 != fields[i].0;
      LookupUnique(rest, i - 1);
    }
  }

  /** Inserting a member with a new key anywhere in an object changes no
      other key's lookup, and makes the new key found. */
  lemma {:induction false} LookupInsert(pre: seq<(string, Value)>, post: seq<(string, Value)>, k: string, v: Value, q: string)
    requires k !in Keys(pre + post)
    ensures q != k ==> Lookup(pre + [(k, v)] + post, q) == Lookup(pre + post, q)
    ensures Lookup(pre + [(k, v)] + post, k) == Some(v)
    decreases |pre|
  {
    if |pre| == 0 {
      assert pre + [(k, v)] + post == [(k, v)] + post;
      assert pre + post == post;
    } else {
      assert (pre + [(k, v)] + post)[0] == pre[0] && (pre + post)[0] == pre[0];
      assert (pre + [(k, v)] + post)[1..] == pre[1..] + [(k, v)] + post;
      assert (pre + post)[1..] == pre[1..] + post;
      assert Keys(pre[1..] + post) <= Keys(pre + post) by {
        assert forall i :: 0 <= i < |pre[1..] + post| ==> (pre[1..] + post)[i] == (pre + post)[i + 1];
      }
      LookupInsert(pre[1..], post, k, v, q);
    }
  }

  /** Appending a member is inserting it at the end. */
  lemma LookupAppend(fields: seq<(string, Value)>, k: string, v: Value, q: string)
    requires k !in Keys(fields)
    ensures q != k ==> Lookup(fields + [(k, v)], q) == Lookup(fields, q)
    ensures Lookup(fields + [(k, v)], k) == Some(v)
  {
    assert fields + [(k, v)] + [] == fields + [(k, v)] && fields + [] == fields;
    LookupInsert(fields, [], k, v, q);
  }

  /** `needle` occurs in `hay` starting at position `i`. */
  predicate OccursAt(needle: string, hay: string, i: nat) {
    i + |needle| <= |hay| && hay[i..i + |needle|] == needle
  }

  /** `needle` occurs as a contiguous slice of `hay` (Python's `needle in hay` on strings). */
  function IsSubstring(needle: string, hay: string): (r: bool)
    ensures r <==> exists i: nat :: OccursAt(needle, hay, i)
    decreases |hay|
  {
    if needle <= hay then
      assert OccursAt(needle, hay, 0);
      true
    else if |hay| == 0 then false
    else
      var rest := IsSubstring(needle, hay[1..]);
      assert forall i: nat :: OccursAt(needle, hay, i + 1) <==> OccursAt(needle, hay[1..], i);
      assert forall i: nat :: OccursAt(needle, hay, i) ==> i > 0;
      assert rest ==> exists i: nat :: OccursAt(needle, hay, i) by {
        if rest {
          var i: nat :| OccursAt(needle, hay[1..], i);
          assert OccursAt(needle, hay, i + 1);
        }
      }
      assert (exists i: nat :: OccursAt(needle, hay, i)) ==> rest by {
        if exists i: nat :: OccursAt(needle, hay, i) {
          var i: nat :| OccursAt(needle, hay, i);
          assert OccursAt(needle, hay[1..], i - 1);
        }
      }
      rest
  }

  /** Python's `key in container` for a string `key`: a key test on a dict,
      an element test on a list, a substring test on a string, and a
      TypeError (None here) on numbers, booleans and None. */
  function PyContains(container: Value, key: string): (r: Option<bool>)
    ensures r.None? <==> container.Null? || container.Bool? || container.Int?
    ensures container.Obj? ==> r == Some(Lookup(container.fields, key).Some?)
    ensures container.Arr? ==> r == Some(exists i :: 0 <= i < |container.items| && container.items[i] == Str(key))
    ensures container.Str? ==> r == Some(exists i: nat :: OccursAt(key, container.s, i))
  {
    match container
    case Obj(fields) =>
      LookupIffKeys(fields, key);
      Some(key in Keys(fields))
    case Arr(items) => Some(Str(key) in items)
    case Str(s) => Some(IsSubstring(key, s))
    case _ => None
  }
}
