/**
 * The list queries behind the index, per-user and search pages:
 * `Story.find(filter)` followed, where the route asks for it, by
 * `.sort({ createdAt: 'desc' })`.
 */
module Listing {
  import opened Stories

  /**
   * `Story.find(filter)`: every stored story the filter selects, each once.
   * The store hands back documents in an order the model leaves open, so
   * the keys are visited in an arbitrary order.
   */
  method Find(store: Store, keep: Story -> bool) returns (es: seq<Entry>)
    ensures Lists(es, store, keep)
  {
    es := [];
    var rest := store.Keys;
    while rest != {}
      invariant FindInvariant(es, rest, store, keep)
      decreases |rest|
    {
      var id :| id in rest;
      if keep(store[id]) {
        FindKeeps(es, rest, id, store, keep);
        es := es + [Entry(id, store[id])];
      } else {
        FindSkips(es, rest, id, store, keep);
      }
      rest := rest - {id};
    }
  }

  /** After visiting the keys outside `rest`, `es` lists what `keep` selected among them. */
  ghost predicate FindInvariant(es: seq<Entry>, rest: set<Id>, store: Store, keep: Story -> bool) {
    && rest <= store.Keys
    && (forall i :: 0 <= i < |es| ==> Stored(es[i], store) && keep(es[i].story))
    && (forall i :: 0 <= i < |es| ==> es[i].id !in rest)
    && IdsOf(es) == Selected(store, keep) - rest
    && |es| == |IdsOf(es)|
  }

  /** Visiting a key the filter selects, and listing its story, keeps the invariant of `Find`. */
  lemma FindKeeps(es: seq<Entry>, rest: set<Id>, id: Id, store: Store, keep: Story -> bool)
    requires FindInvariant(es, rest, store, keep)
    requires id in rest && keep(store[id])
    ensures FindInvariant(es + [Entry(id, store[id])], rest - {id}, store, keep)
  {
    var e := Entry(id, store[id]);
    var es' := es + [e];
    assert id !in IdsOf(es);
    IdsOfAppend(es, e);
    assert id in Selected(store, keep);
    assert IdsOf(es') == Selected(store, keep) - (rest - {id}) by {
      assert IdsOf(es') == (Selected(store, keep) - rest) + {id};
    }
    forall i | 0 <= i < |es'|
      ensures Stored(es'[i], store) && keep(es'[i].story) && es'[i].id !in rest - {id}
    {
      if i < |es| { assert es'[i] == es[i]; }
    }
  }

  /** Visiting a key the filter rejects keeps the invariant of `Find`. */
  lemma FindSkips(es: seq<Entry>, rest: set<Id>, id: Id, store: Store, keep: Story -> bool)
    requires FindInvariant(es, rest, store, keep)
    requires id in rest && !keep(store[id])
    ensures FindInvariant(es, rest - {id}, store, keep)
  {
    assert id !in Selected(store, keep);
  }

  /** Appending an entry with a new id adds exactly that id. */
  lemma IdsOfAppend(es: seq<Entry>, e: Entry)
    ensures IdsOf(es + [e]) == IdsOf(es) + {e.id}
    ensures e.id !in IdsOf(es) ==> |IdsOf(es + [e])| == |IdsOf(es)| + 1
  {
  }

  /** Where `e` goes in a newest-first list: after every entry at least as new. */
  function InsertionPoint(e: Entry, s: seq<Entry>): (k: nat)
    requires NewestFirst(s)
    ensures k <= |s|
    ensures forall i :: 0 <= i < k ==> s[i].story.createdAt >= e.story.createdAt
    ensures forall i :: k <= i < |s| ==> s[i].story.createdAt < e.story.createdAt
  {
    if s == [] || s[0].story.createdAt < e.story.createdAt then 0
    else 1 + InsertionPoint(e, s[1..])
  }

  /** `e` added to a newest-first list, which stays newest first. */
  function Insert(e: Entry, s: seq<Entry>): (r: seq<Entry>)
    requires NewestFirst(s)
    ensures NewestFirst(r)
    ensures multiset(r) == multiset(s) + multiset{e}
  {
    var k := InsertionPoint(e, s);
    assert s == s[..k] + s[k..];
    s[..k] + [e] + s[k..]
  }

  /** `.sort({ createdAt: 'desc' })`: a newest-first permutation of `s`. */
  function SortNewestFirst(s: seq<Entry>): (r: seq<Entry>)
    ensures NewestFirst(r)
    ensures multiset(r) == multiset(s)
  {
    if s == [] then []
    else
      assert s == [s[0]] + s[1..];
      Insert(s[0], SortNewestFirst(s[1..]))
  }

  /** Reordering a listing keeps it a listing of the same selection. */
  lemma ListsPermutation(a: seq<Entry>, b: seq<Entry>, store: Store, keep: Story -> bool)
    requires Lists(a, store, keep)
    requires multiset(a) == multiset(b)
    ensures Lists(b, store, keep)
  {
    assert |a| == |multiset(a)| == |multiset(b)| == |b|;
    forall i | 0 <= i < |b|
      ensures Stored(b[i], store) && keep(b[i].story)
    {
      assert b[i] in multiset(b);
      var j :| 0 <= j < |a| && a[j] == b[i];
    }
    forall id | id in IdsOf(b)
      ensures id in IdsOf(a)
    {
      var i :| 0 <= i < |b| && b[i].id == id;
      assert b[i] in multiset(a);
      var j :| 0 <= j < |a| && a[j] == b[i];
    }
    forall id | id in IdsOf(a)
      ensures id in IdsOf(b)
    {
      var i :| 0 <= i < |a| && a[i].id == id;
      assert a[i] in multiset(b);
      var j :| 0 <= j < |b| && b[j] == a[i];
    }
  }

  /** At most one id per entry. */
  lemma {:induction false} IdsOfBound(es: seq<Entry>)
    ensures |IdsOf(es)| <= |es|
  {
    if es != [] {
      IdsOfBound(es[1..]);
      assert IdsOf(es) == IdsOf(es[1..]) + {es[0].id};
    }
  }

  /**
   * A sequence with as many entries as distinct ids repeats no id: the
   * cardinality clause of `Lists` says that no story is listed twice.
   */
  lemma NoRepeatedIds(es: seq<Entry>)
    requires |IdsOf(es)| == |es|
    ensures forall i, j :: 0 <= i < j < |es| ==> es[i].id != es[j].id
  {
    forall i, j | 0 <= i < j < |es|
      ensures es[i].id != es[j].id
    {
      if es[i].id == es[j].id {
        var rest := es[..j] + es[j + 1..];
        assert es == es[..j] + [es[j]] + es[j + 1..];
        assert IdsOf(es) == IdsOf(rest) by {
          assert es[i] == rest[i];
        }
        IdsOfBound(rest);
        assert false;
      }
    }
  }
}
