/** Laws of the abstract book's queues: what removal does to a sequence, how quantity sums
    change, and that each operation of BookSpec keeps the book well formed. */
module QueueLaws {
  import opened Machine
  import opened BookSpec

  lemma NoDupRemoveAt(q: seq<u64>, p: nat)
    requires NoDup(q) && p < |q|
    ensures NoDup(RemoveAt(q, p))
    ensures forall x :: x in RemoveAt(q, p) <==> x in q && x != q[p]
  {
    var r := RemoveAt(q, p);
    forall i, j | 0 <= i < j < |r| ensures r[i] != r[j] {
      assert r[i] == q[if i < p then i else i + 1] && r[j] == q[if j < p then j else j + 1];
    }
    forall i | 0 <= i < |r| ensures r[i] != q[p] {
      assert r[i] == q[if i < p then i else i + 1];
    }
    assert q == q[..p] + [q[p]] + q[p + 1..];
  }

  lemma WithoutAt(q: seq<u64>, p: nat)
    requires NoDup(q) && p < |q|
    ensures Without(q, q[p]) == RemoveAt(q, p)
  {
    assert IndexOf(q, q[p]) == p;
  }

  lemma WithoutMembers(q: seq<u64>, id: u64)
    requires NoDup(q)
    ensures NoDup(Without(q, id))
    ensures forall x :: x in Without(q, id) <==> x in q && x != id
  {
    if id in q {
      NoDupRemoveAt(q, IndexOf(q, id));
    }
  }

  // ------------------------------------------------------------------ sums of a queue

  lemma {:induction false} TotalFrame(orders: map<u64, Entry>, orders': map<u64, Entry>, q: seq<u64>)
    requires forall i :: 0 <= i < |q| ==>
      (q[i] in orders <==> q[i] in orders') && (q[i] in orders ==> orders[q[i]].quantity == orders'[q[i]].quantity)
    ensures Total(orders, q) == Total(orders', q)
  {
    if q != [] {
      TotalFrame(orders, orders', q[..|q| - 1]);
    }
  }

  lemma {:induction false} TotalRemoveAt(orders: map<u64, Entry>, q: seq<u64>, p: nat)
    requires p < |q| && q[p] in orders
    ensures Total(orders, q) == Total(orders, RemoveAt(q, p)) + orders[q[p]].quantity
  {
    var last := |q| - 1;
    if p == last {
      assert RemoveAt(q, p) == q[..last];
    } else {
      TotalRemoveAt(orders, q[..last], p);
      var r := RemoveAt(q, p);
      assert r[..|r| - 1] == RemoveAt(q[..last], p);
    }
  }

  /** Changing the quantity of one order of a queue changes the sum by the difference. */
  lemma TotalResize(orders: map<u64, Entry>, q: seq<u64>, id: u64, e: Entry)
    requires NoDup(q) && id in q && id in orders
    ensures Total(orders[id := e], q) == Total(orders, q) - orders[id].quantity + e.quantity
  {
    var p :| 0 <= p < |q| && q[p] == id;
    TotalRemoveAt(orders, q, p);
    TotalRemoveAt(orders[id := e], q, p);
    NoDupRemoveAt(q, p);
    TotalFrame(orders, orders[id := e], RemoveAt(q, p));
  }

  lemma TotalAppend(orders: map<u64, Entry>, q: seq<u64>, id: u64)
    requires id in orders
    ensures Total(orders, q + [id]) == Total(orders, q) + orders[id].quantity
  {
    assert (q + [id])[..|q|] == q;
  }

  // ------------------------------------------------------------------ well-formedness

  lemma EnqueueSound(b: Book, id: u64)
    requires b.Sound() && id in b.orders && id !in b.Queue(b.orders[id].level)
    ensures b.Enqueue(id).Sound()
  {
    var b' := b.Enqueue(id);
    forall l, i | 0 <= i < |b'.Queue(l)|
      ensures b'.Queue(l)[i] in b.orders && b.orders[b'.Queue(l)[i]].level == l
    {
      assert i < |b.Queue(l)| ==> b'.Queue(l)[i] == b.Queue(l)[i];
    }
    forall l ensures NoDup(b'.Queue(l)) {
      assert NoDup(b.Queue(l));
    }
  }

  lemma DequeueSound(b: Book, id: u64)
    requires b.Sound() && id in b.orders
    ensures b.Dequeue(id).Sound()
    ensures forall l, x :: x in b.Dequeue(id).Queue(l) <==> x in b.Queue(l) && x != id
  {
    var b' := b.Dequeue(id);
    assert NoDup(b.Queue(b.orders[id].level));
    WithoutMembers(b.Queue(b.orders[id].level), id);
    forall l, x ensures x in b'.Queue(l) <==> x in b.Queue(l) && x != id {}
    forall l, i | 0 <= i < |b'.Queue(l)|
      ensures b'.Queue(l)[i] in b.orders && b.orders[b'.Queue(l)[i]].level == l
    {
      assert b'.Queue(l)[i] in b.Queue(l);
    }
    forall l ensures NoDup(b'.Queue(l)) {
      assert NoDup(b.Queue(l));
    }
  }

  /** An order that stands in no queue can come, go or change without harm to the queues. */
  lemma UnqueuedSound(b: Book, b': Book, id: u64)
    requires b.Sound() && b'.queues == b.queues
    requires id in b.orders ==> id !in b.Queue(b.orders[id].level)
    requires forall x :: x in b.orders && x != id ==> x in b'.orders && b'.orders[x].level == b.orders[x].level
    ensures b'.Sound()
    ensures forall l :: b'.Queue(l) == b.Queue(l) && id !in b.Queue(l)
  {
    forall l ensures b'.Queue(l) == b.Queue(l) && id !in b.Queue(l) && NoDup(b'.Queue(l)) {
      assert NoDup(b.Queue(l));
    }
  }

  /** Resizing in place. */
  lemma ResizeSound(b: Book, id: u64, e: Entry)
    requires b.Sound() && id in b.orders && b.orders[id].level == e.level
    ensures b.(orders := b.orders[id := e]).Sound()
  {
    var b' := b.(orders := b.orders[id := e]);
    forall l ensures b'.Queue(l) == b.Queue(l) && NoDup(b'.Queue(l)) {
      assert NoDup(b.Queue(l));
    }
  }

  lemma AddSound(b: Book, id: u64, l: Level, quantity: u64)
    requires b.Sound()
    ensures AddOrder(b, id, l, quantity).book.Sound()
  {
    if AddOrder(b, id, l, quantity).ok {
      var f := b.(orders := b.orders[id := Entry(l, quantity)]);
      UnqueuedSound(b, f, id);
      EnqueueSound(f, id);
    }
  }

  lemma CancelSound(b: Book, id: u64)
    requires b.Sound()
    ensures CancelOrder(b, id).book.Sound()
  {
    if id in b.orders {
      DequeueSound(b, id);
      var d := b.Dequeue(id);
      UnqueuedSound(d, d.(orders := b.orders - {id}), id);
    }
  }

  lemma RequeueSound(b: Book, id: u64, e: Entry)
    requires b.Sound() && id in b.orders && b.orders[id].level == e.level
    ensures b.Dequeue(id).(orders := b.orders[id := e]).Enqueue(id).Sound()
  {
    DequeueSound(b, id);
    var r := b.Dequeue(id).(orders := b.orders[id := e]);
    UnqueuedSound(b.Dequeue(id), r, id);
    EnqueueSound(r, id);
  }

  lemma ModifySound(b: Book, id: u64, quantity: u64)
    requires b.Sound()
    ensures ModifyOrder(b, id, quantity).book.Sound()
  {
    if quantity == 0 {
      CancelSound(b, id);
    } else if id in b.orders {
      var e := b.orders[id].(quantity := quantity);
      RequeueSound(b, id, e);
      ResizeSound(b, id, e);
    }
  }

  lemma AddComplete(b: Book, id: u64, l: Level, quantity: u64)
    requires b.Complete()
    ensures AddOrder(b, id, l, quantity).book.Complete()
  {
    var b' := AddOrder(b, id, l, quantity).book;
    forall x | x in b'.orders ensures b'.orders[x].level.price < b'.maxPrice && x in b'.Queue(b'.orders[x].level) {
      assert x != id ==> x in b.Queue(b.orders[x].level);
    }
  }

  lemma CancelComplete(b: Book, id: u64)
    requires b.Sound() && b.Complete()
    ensures CancelOrder(b, id).book.Complete()
  {
    if id in b.orders {
      DequeueSound(b, id);
      var b' := CancelOrder(b, id).book;
      forall x | x in b'.orders ensures x in b'.Queue(b'.orders[x].level) {
        assert x in b.Queue(b.orders[x].level);
        assert b'.Queue(b.orders[x].level) == b.Dequeue(id).Queue(b.orders[x].level);
      }
    }
  }

  lemma RequeueComplete(b: Book, id: u64, e: Entry)
    requires b.Sound() && b.Complete() && id in b.orders && b.orders[id].level == e.level
    ensures b.Dequeue(id).(orders := b.orders[id := e]).Enqueue(id).Complete()
  {
    DequeueSound(b, id);
    var d := b.Dequeue(id);
    var b' := d.(orders := b.orders[id := e]).Enqueue(id);
    forall x | x in b'.orders ensures x in b'.Queue(b'.orders[x].level) {
      var l := b.orders[x].level;
      assert x in b.Queue(l);
      assert b'.Queue(l) == if l == e.level then d.Queue(l) + [id] else d.Queue(l);
      assert x != id ==> x in d.Queue(l);
    }
  }

  lemma ResizeComplete(b: Book, id: u64, e: Entry)
    requires b.Complete() && id in b.orders && b.orders[id].level == e.level
    ensures b.(orders := b.orders[id := e]).Complete()
  {
    var b' := b.(orders := b.orders[id := e]);
    forall x | x in b'.orders ensures x in b'.Queue(b'.orders[x].level) {
      assert b'.Queue(b.orders[x].level) == b.Queue(b.orders[x].level);
    }
  }

  lemma ModifyComplete(b: Book, id: u64, quantity: u64)
    requires b.Sound() && b.Complete()
    ensures ModifyOrder(b, id, quantity).book.Complete()
  {
    if quantity == 0 {
      CancelComplete(b, id);
    } else if id in b.orders {
      var e := b.orders[id].(quantity := quantity);
      RequeueComplete(b, id, e);
      ResizeComplete(b, id, e);
    }
  }

  /** Every operation keeps a well-formed book well formed. */
  lemma OperationsKeepWf(b: Book, id: u64, l: Level, quantity: u64)
    requires b.Wf()
    ensures AddOrder(b, id, l, quantity).book.Wf()
    ensures CancelOrder(b, id).book.Wf()
    ensures ModifyOrder(b, id, quantity).book.Wf()
  {
    hide Book.Sound, Book.Complete, Book.Queue;
    AddSound(b, id, l, quantity);
    AddComplete(b, id, l, quantity);
    CancelSound(b, id);
    CancelComplete(b, id);
    ModifySound(b, id, quantity);
    ModifyComplete(b, id, quantity);
  }

  lemma {:induction false} WithoutLast(q: seq<u64>, id: u64)
    requires id !in q
    ensures Without(q + [id], id) == q
  {
    assert (q + [id])[|q|] == id;
    assert id in q + [id];
  }

  /** Cancelling an order just added gives back every resting order and every queue; and an
      addition is refused exactly for a price out of range, a resting id or a full book. */
  lemma CancelUndoesAdd(b: Book, id: u64, l: Level, quantity: u64)
    requires b.Sound()
    ensures var added := AddOrder(b, id, l, quantity);
            && (added.ok <==> l.price < b.maxPrice && id !in b.orders && |b.orders| < b.maxOrders)
            && (!added.ok ==> added.book == b)
            && (added.ok ==>
                  var undone := CancelOrder(added.book, id);
                  undone.ok && undone.book.orders == b.orders && forall m :: undone.book.Queue(m) == b.Queue(m))
  {
    var added := AddOrder(b, id, l, quantity);
    if added.ok {
      assert id !in b.Queue(l);
      WithoutLast(b.Queue(l), id);
      var undone := CancelOrder(added.book, id).book;
      assert undone.orders == b.orders;
      forall m ensures undone.Queue(m) == b.Queue(m) {
        assert m != l ==> added.book.Queue(m) == b.Queue(m);
      }
    }
  }
}
