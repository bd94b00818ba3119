/** The circular doubly linked list that runs through the list nodes of its entries, with a list head
    that is a node of its own. Node 0 of a ring is its head; the entries of the list follow in order. */
module IntrusiveList {

  /** A list node together with the structure it is embedded in; the head's data is never looked at. */
  class ListNode<T> {
    var prev: ListNode?<T>
    var next: ListNode?<T>
    var data: T

    constructor (data: T)
      ensures prev == null && next == null && this.data == data
    {
      prev, next, this.data := null, null, data;
    }
  }

  ghost predicate Distinct<T>(r: seq<ListNode<T>>) {
    forall i, j :: 0 <= i < j < |r| ==> r[i] != r[j]
  }

  /** The node after node i, round the ring. */
  function Following<T>(r: seq<ListNode<T>>, i: nat): ListNode<T>
    requires i < |r|
  {
    if i + 1 == |r| then r[0] else r[i + 1]
  }

  /** The node before node i, round the ring. */
  function Preceding<T>(r: seq<ListNode<T>>, i: nat): ListNode<T>
    requires i < |r|
  {
    if i == 0 then r[|r| - 1] else r[i - 1]
  }

  /** The nodes of r, in this order, form a ring. */
  ghost predicate Ring<T>(r: seq<ListNode<T>>)
    reads r`next, r`prev
  {
    && |r| >= 1 && Distinct(r)
    && forall i :: 0 <= i < |r| ==> r[i].next == Following(r, i) && Following(r, i).prev == r[i]
  }

  function InsertAt<T>(s: seq<T>, k: nat, x: T): (s': seq<T>)
    requires k <= |s|
    ensures |s'| == |s| + 1
  {
    s[..k] + [x] + s[k..]
  }

  function RemoveAt<T>(s: seq<T>, k: nat): (s': seq<T>)
    requires k < |s|
    ensures |s'| == |s| - 1
  {
    s[..k] + s[k + 1..]
  }

  /** What is inserted can be taken out again. */
  lemma RemoveInverts<T>(s: seq<T>, k: nat, x: T)
    requires k <= |s|
    ensures RemoveAt(InsertAt(s, k, x), k) == s
  {
    assert InsertAt(s, k, x)[..k] == s[..k];
    assert InsertAt(s, k, x)[k + 1..] == s[k..];
    assert s[..k] + s[k..] == s;
  }

  /** After node k, entry has been linked in and nothing else has changed. */
  lemma LinkedAfter<T>(r: seq<ListNode<T>>, k: nat, entry: ListNode<T>)
    requires Distinct(r) && entry !in r && k < |r|
    requires forall i :: 0 <= i < |r| && i != k ==> r[i].next == Following(r, i) && Following(r, i).prev == r[i]
    requires r[k].next == entry && entry.prev == r[k]
    requires entry.next == Following(r, k) && Following(r, k).prev == entry
    ensures Ring(InsertAt(r, k + 1, entry))
  {
    var s := InsertAt(r, k + 1, entry);
    forall i | 0 <= i < |s| ensures s[i].next == Following(s, i) && Following(s, i).prev == s[i] {
      if i < k {
        assert s[i] == r[i] && Following(s, i) == Following(r, i);
      } else if i > k + 1 {
        assert s[i] == r[i - 1] && Following(s, i) == Following(r, i - 1);
      }
    }
  }

  /** Node k has been bypassed and nothing else has changed. */
  lemma UnlinkedAt<T>(r: seq<ListNode<T>>, k: nat)
    requires Distinct(r) && 0 < k < |r|
    requires forall i :: 0 <= i < |r| && i != k && i != k - 1 ==>
               r[i].next == Following(r, i) && Following(r, i).prev == r[i]
    requires r[k - 1].next == Following(r, k) && Following(r, k).prev == r[k - 1]
    ensures Ring(RemoveAt(r, k))
  {
    var s := RemoveAt(r, k);
    forall i | 0 <= i < |s| ensures s[i].next == Following(s, i) && Following(s, i).prev == s[i] {
      if i < k - 1 {
        assert s[i] == r[i] && Following(s, i) == Following(r, i);
      } else if i >= k {
        assert s[i] == r[i + 1] && Following(s, i) == Following(r, i + 1);
      }
    }
  }

  /** list_init. */
  method ListInit<T>(entry: ListNode<T>)
    modifies entry`prev, entry`next
    ensures Ring([entry])
  {
    entry.prev, entry.next := entry, entry;
  }

  /** list_empty. */
  method ListEmpty<T>(head: ListNode<T>, ghost r: seq<ListNode<T>>) returns (b: bool)
    requires Ring(r) && r[0] == head
    ensures b <==> r == [head]
  {
    assert r[0].next == Following(r, 0);
    b := head.next == head;
  }

  /** list_add: insert right after the given node. */
  method ListAdd<T>(entry: ListNode<T>, at: ListNode<T>, ghost r: seq<ListNode<T>>, ghost k: nat)
    requires Ring(r) && entry !in r && k < |r| && r[k] == at
    modifies entry`next, entry`prev, at`next, Following(r, k)`prev
    ensures Ring(InsertAt(r, k + 1, entry))
  {
    assert at.next == Following(r, k);
    entry.next := at.next;
    entry.prev := at;
    at.next.prev := entry;
    at.next := entry;
    LinkedAfter(r, k, entry);
  }

  /** list_add_tail: insert right before the given node; right before the head is at the end. */
  method ListAddTail<T>(entry: ListNode<T>, at: ListNode<T>, ghost r: seq<ListNode<T>>, ghost k: nat)
    requires Ring(r) && entry !in r && k < |r| && r[k] == at
    modifies entry`next, entry`prev, at`prev, Preceding(r, k)`next
    ensures Ring(InsertAt(r, if k == 0 then |r| else k, entry))
  {
    assert Following(r, if k == 0 then |r| - 1 else k - 1) == at && at.prev == Preceding(r, k);
    entry.next := at;
    entry.prev := at.prev;
    at.prev.next := entry;
    at.prev := entry;
    if k == 0 {
      LinkedAfter(r, |r| - 1, entry);
    } else {
      LinkedAfter(r, k - 1, entry);
    }
  }

  /** list_del: take an entry out; its own links stay as they were. */
  method ListDel<T>(entry: ListNode<T>, ghost r: seq<ListNode<T>>, ghost k: nat)
    requires Ring(r) && 0 < k < |r| && r[k] == entry
    modifies Preceding(r, k)`next, Following(r, k)`prev
    ensures Ring(RemoveAt(r, k))
  {
    assert entry.next == Following(r, k);
    assert Following(r, k - 1) == entry && entry.prev == r[k - 1];
    entry.next.prev := entry.prev;
    entry.prev.next := entry.next;
    UnlinkedAt(r, k);
  }
}
