/**
 * A JavaScript object as an ordered list of key/value entries, in the order
 * `for..in` enumerates them: reading `obj[k]` finds the entry with key `k`;
 * writing `obj[k] = v` replaces that entry's value in place, or appends a new
 * entry when there is none.
 */
module Assoc {
  import opened Wrappers

  datatype Entry<V> = Entry(key: string, val: V)

  /** Whether some entry has key `k` (`k in obj`). */
  predicate HasKey<V>(s: seq<Entry<V>>, k: string) {
    exists i :: 0 <= i < |s| && s[i].key == k
  }

  /** `obj[k]`: the value of the first entry with key `k`. */
  function Find<V>(s: seq<Entry<V>>, k: string): (r: Option<V>)
    ensures r.None? <==> !HasKey(s, k)
    ensures r.Some? ==> exists i :: 0 <= i < |s| && s[i] == Entry(k, r.value)
  {
    if s == [] then None
    else if s[0].key == k then Some(s[0].val)
    else
      var r := Find(s[1..], k);
      assert HasKey(s, k) <==> HasKey(s[1..], k) by {
        if HasKey(s, k) {
          var i :| 0 <= i < |s| && s[i].key == k;
          assert s[1..][i - 1].key == k;
        }
        if HasKey(s[1..], k) {
          var i :| 0 <= i < |s[1..]| && s[1..][i].key == k;
          assert s[i + 1].key == k;
        }
      }
      if r.Some? then
        assert exists i :: 0 <= i < |s| && s[i] == Entry(k, r.value) by {
          var i :| 0 <= i < |s[1..]| && s[1..][i] == Entry(k, r.value);
          assert s[i + 1] == Entry(k, r.value);
        }
        r
      else r
  }

  /** No two entries share a key, as in every JavaScript object. */
  predicate UniqueKeys<V>(s: seq<Entry<V>>) {
    forall i, j :: 0 <= i < j < |s| ==> s[i].key != s[j].key
  }

  /** `obj[k] = v`: the entry for `k` now holds `v`, every other key reads as before. */
  function Put<V>(s: seq<Entry<V>>, k: string, v: V): (r: seq<Entry<V>>)
    ensures Find(r, k) == Some(v)
    ensures forall k' :: k' != k ==> Find(r, k') == Find(s, k')
  {
    if s == [] then [Entry(k, v)]
    else if s[0].key == k then [Entry(k, v)] + s[1..]
    else
      var r := [s[0]] + Put(s[1..], k, v);
      assert r[1..] == Put(s[1..], k, v);
      r
  }

  lemma HasKeyTail<V>(s: seq<Entry<V>>, k: string)
    requires s != []
    ensures HasKey(s, k) <==> s[0].key == k || HasKey(s[1..], k)
  {
    if HasKey(s, k) && s[0].key != k {
      var i :| 0 <= i < |s| && s[i].key == k;
      assert s[1..][i - 1].key == k;
    }
    if HasKey(s[1..], k) {
      var i :| 0 <= i < |s[1..]| && s[1..][i].key == k;
      assert s[i + 1].key == k;
    }
  }

  /** A write to an existing key keeps every key where it was. */
  lemma {:induction false} PutExisting<V>(s: seq<Entry<V>>, k: string, v: V)
    requires HasKey(s, k)
    ensures |Put(s, k, v)| == |s|
    ensures forall i :: 0 <= i < |s| ==> Put(s, k, v)[i].key == s[i].key
  {
    HasKeyTail(s, k);
    if s[0].key != k {
      PutExisting(s[1..], k, v);
      var r := Put(s, k, v);
      var t := Put(s[1..], k, v);
      assert r == [s[0]] + t;
      forall i | 0 <= i < |s| ensures r[i].key == s[i].key {
        if i > 0 { assert r[i] == t[i - 1] && s[i] == s[1..][i - 1]; }
      }
    }
  }

  /** A write to a new key appends an entry. */
  lemma {:induction false} PutNew<V>(s: seq<Entry<V>>, k: string, v: V)
    requires !HasKey(s, k)
    ensures Put(s, k, v) == s + [Entry(k, v)]
  {
    if s != [] {
      HasKeyTail(s, k);
      PutNew(s[1..], k, v);
      assert [s[0]] + (s[1..] + [Entry(k, v)]) == s + [Entry(k, v)];
    }
  }

  /** Writing a key keeps the keys of an object distinct. */
  lemma PutUnique<V>(s: seq<Entry<V>>, k: string, v: V)
    requires UniqueKeys(s)
    ensures UniqueKeys(Put(s, k, v))
  {
    var r := Put(s, k, v);
    if HasKey(s, k) {
      PutExisting(s, k, v);
    } else {
      PutNew(s, k, v);
      forall i, j | 0 <= i < j < |r| ensures r[i].key != r[j].key {
        if j == |s| { assert r[i] == s[i]; }
      }
    }
  }

  /** Writing back the value a key already holds changes nothing. */
  lemma {:induction false} PutSame<V>(s: seq<Entry<V>>, k: string, v: V)
    requires Find(s, k) == Some(v)
    ensures Put(s, k, v) == s
  {
    if s != [] && s[0].key != k {
      PutSame(s[1..], k, v);
    }
  }

  /** A key that is present is found with a value stored under it. */
  lemma FindIn<V>(s: seq<Entry<V>>, k: string)
    requires HasKey(s, k)
    ensures Entry(k, Find(s, k).value) in s
  {
    var i :| 0 <= i < |s| && s[i] == Entry(k, Find(s, k).value);
  }

  /** A write adds no entry other than the one written. */
  lemma {:induction false} PutEntries<V>(s: seq<Entry<V>>, k: string, v: V)
    ensures forall e :: e in Put(s, k, v) ==> e == Entry(k, v) || e in s
  {
    if s != [] {
      assert forall e :: e in s[1..] ==> e in s;
      if s[0].key != k {
        PutEntries(s[1..], k, v);
        assert Put(s, k, v) == [s[0]] + Put(s[1..], k, v);
      }
    }
  }

  /** `obj[k]` read as JavaScript does with a default for a missing key. */
  function FindOr<V>(s: seq<Entry<V>>, k: string, default: V): V {
    match Find(s, k)
    case Some(v) => v
    case None => default
  }
}
