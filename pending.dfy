/** `App.pending` (main.py:437): the deployment queue, a Python dict from
    mod name to the time of its last detected change. A dict remembers the
    order in which keys were first inserted, and assigning to a key that is
    already there keeps its place; the queue is therefore a sequence of
    (name, time) pairs with distinct names. */
module Pending {
  import opened Maybe

  type Queue = seq<(string, int)>

  function Keys(q: Queue): (r: seq<string>)
    ensures |r| == |q|
    ensures forall i :: 0 <= i < |q| ==> r[i] == q[i].0
  {
    if q == [] then [] else [q[0].0] + Keys(q[1..])
  }

  /** No name is queued twice. */
  predicate UniqueKeys(q: Queue) {
    forall i, j :: 0 <= i < j < |q| ==> q[i].0 != q[j].0
  }

  predicate Has(q: Queue, name: string) {
    exists i :: 0 <= i < |q| && q[i].0 == name
  }

  /** `pending.get(name)`. */
  function Lookup(q: Queue, name: string): (r: Option<int>)
    ensures r.None? <==> !Has(q, name)
    ensures r.Some? ==> exists i :: 0 <= i < |q| && q[i] == (name, r.value)
  {
    if q == [] then None
    else if q[0].0 == name then Some(q[0].1)
    else
      var r := Lookup(q[1..], name);
      assert forall i :: 1 <= i < |q| ==> q[i] == q[1..][i - 1];
      r
  }

  /** `pending[name] = t`: the time of a queued name is replaced in place,
      a new name goes to the end. */
  function Put(q: Queue, name: string, t: int): (r: Queue)
  {
    if q == [] then [(name, t)]
    else if q[0].0 == name then [(name, t)] + q[1..]
    else [q[0]] + Put(q[1..], name, t)
  }

  /** `pending.pop(name, None)`: the name leaves the queue if it is there. */
  function Pop(q: Queue, name: string): (r: Queue)
    ensures |r| <= |q|
  {
    if q == [] then []
    else if q[0].0 == name then Pop(q[1..], name)
    else [q[0]] + Pop(q[1..], name)
  }

  /** After `Put` the name maps to the new time and every other name to
      what it mapped to before; no name is duplicated. */
  lemma {:induction false} PutLookup(q: Queue, name: string, t: int, other: string)
    ensures Lookup(Put(q, name, t), name) == Some(t)
    ensures other != name ==> Lookup(Put(q, name, t), other) == Lookup(q, other)
  {
    if q != [] && q[0].0 != name {
      PutLookup(q[1..], name, t, other);
    }
  }

  /** `Put` keeps the names distinct. */
  lemma {:induction false} PutUnique(q: Queue, name: string, t: int)
    requires UniqueKeys(q)
    ensures UniqueKeys(Put(q, name, t))
  {
    if q != [] {
      var r := Put(q, name, t);
      if q[0].0 == name {
        forall i, j | 0 <= i < j < |r| ensures r[i].0 != r[j].0 {
          assert r[j] == q[j];
          assert r[i].0 == q[i].0;
        }
      } else {
        PutUnique(q[1..], name, t);
        var tail := Put(q[1..], name, t);
        HeadNotInTail(q);
        PutLookup(q[1..], name, t, q[0].0);
        assert !Has(tail, q[0].0);
        forall i, j | 0 <= i < j < |r| ensures r[i].0 != r[j].0 {
          assert r[j] == tail[j - 1];
          if i > 0 {
            assert r[i] == tail[i - 1];
          }
        }
      }
    }
  }

  /** `Put` keeps the order of the queue: a queued name keeps its position,
      a new one is appended. */
  lemma {:induction false} PutKeys(q: Queue, name: string, t: int)
    ensures Has(q, name) ==> Keys(Put(q, name, t)) == Keys(q)
    ensures !Has(q, name) ==> Keys(Put(q, name, t)) == Keys(q) + [name]
  {
    if q != [] {
      var r := Put(q, name, t);
      if q[0].0 == name {
        assert Keys(r) == [name] + Keys(q[1..]);
        assert Has(q, name) by { assert q[0].0 == name; }
      } else {
        PutKeys(q[1..], name, t);
        HasCons(q, name);
        assert Keys(r) == [q[0].0] + Keys(Put(q[1..], name, t));
        assert Keys(q) == [q[0].0] + Keys(q[1..]);
      }
    }
  }

  lemma HasCons(q: Queue, name: string)
    requires q != []
    ensures Has(q, name) <==> q[0].0 == name || Has(q[1..], name)
  {
    if Has(q, name) && q[0].0 != name {
      var i :| 0 <= i < |q| && q[i].0 == name;
      assert q[1..][i - 1].0 == name;
    }
    if Has(q[1..], name) {
      var i :| 0 <= i < |q[1..]| && q[1..][i].0 == name;
      assert q[i + 1].0 == name;
    }
  }

  /** After `Pop` the name is gone and every other name keeps its time. */
  lemma {:induction false} PopLookup(q: Queue, name: string, other: string)
    ensures Lookup(Pop(q, name), name) == None
    ensures other != name ==> Lookup(Pop(q, name), other) == Lookup(q, other)
  {
    if q != [] {
      PopLookup(q[1..], name, other);
    }
  }

  /** `Pop` keeps the names distinct and the remaining ones in order. */
  lemma {:induction false} PopUnique(q: Queue, name: string)
    requires UniqueKeys(q)
    ensures UniqueKeys(Pop(q, name))
  {
    if q != [] {
      PopUnique(q[1..], name);
      if q[0].0 != name {
        var r := Pop(q, name);
        var tail := Pop(q[1..], name);
        HeadNotInTail(q);
        PopLookup(q[1..], name, q[0].0);
        assert !Has(tail, q[0].0);
        forall j | 0 < j < |r| ensures r[0].0 != r[j].0 {
          assert r[j] == tail[j - 1];
        }
      }
    }
  }

  /** In a queue without duplicates the first name does not occur again. */
  lemma HeadNotInTail(q: Queue)
    requires q != [] && UniqueKeys(q)
    ensures !Has(q[1..], q[0].0)
  {
    forall i | 0 <= i < |q[1..]| ensures q[1..][i].0 != q[0].0 {
      assert q[1..][i] == q[i + 1];
    }
  }

  /** Popping a name that is not queued changes nothing. */
  lemma {:induction false} PopAbsent(q: Queue, name: string)
    requires !Has(q, name)
    ensures Pop(q, name) == q
  {
    if q != [] {
      assert q[0].0 != name;
      forall i | 0 <= i < |q[1..]| ensures q[1..][i].0 != name {
        assert q[1..][i] == q[i + 1];
      }
      PopAbsent(q[1..], name);
    }
  }

  /** Popping several names one after the other. */
  function PopAll(q: Queue, names: seq<string>): (r: Queue)
    decreases |names|
  {
    if names == [] then q else PopAll(Pop(q, names[0]), names[1..])
  }

  /** After popping a list of names, exactly those are gone and every other
      name keeps its time. */
  lemma {:induction false} PopAllLookup(q: Queue, names: seq<string>, other: string)
    ensures other in names ==> Lookup(PopAll(q, names), other) == None
    ensures other !in names ==> Lookup(PopAll(q, names), other) == Lookup(q, other)
    decreases |names|
  {
    if names != [] {
      PopAllLookup(Pop(q, names[0]), names[1..], other);
      PopLookup(q, names[0], other);
    }
  }

  lemma {:induction false} PopAllUnique(q: Queue, names: seq<string>)
    requires UniqueKeys(q)
    ensures UniqueKeys(PopAll(q, names))
    decreases |names|
  {
    if names != [] {
      PopUnique(q, names[0]);
      PopAllUnique(Pop(q, names[0]), names[1..]);
    }
  }
}
