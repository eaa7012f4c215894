/** FBQ, the bounded queue of buffers between threads. The two counting semaphores hand a
    token straight to a waiting thread: that thread is ready, but goes on only when it is
    scheduled, and others may run first. Each step below is one critical section. */
module FbqModel {
  import opened Wrappers

  /** The queue and the threads in its operations. `waiting_puts` and `ready_puts` are the
      buffers of the threads inside `fbq_put` that wait for, or have been given, a token. */
  datatype Queue<T> = Queue(size: nat, index: nat, cnt: nat, buf: seq<T>, capacity: int, length: int,
                            waiting_puts: seq<T>, ready_puts: seq<T>, waiting_gets: nat, ready_gets: nat)
  {
    ghost predicate Valid() {
      && index < size == |buf| < 256
      && cnt + Positive(capacity) + |ready_puts| == size
      && Positive(length) + ready_gets == cnt
      && |waiting_puts| == Positive(-capacity)
      && waiting_gets == Positive(-length)
    }

    /** The buffers in the queue, the oldest first. */
    function Unread(): (u: seq<T>)
      requires Valid()
      ensures |u| == cnt
    {
      seq(cnt, k requires 0 <= k < cnt => buf[(index + 1 + k) % size])
    }

    /** `fbq_eof` */
    predicate Eof() { capacity >= size }

    /** `fbq_full` */
    predicate Full() { capacity == 0 }
  }

  function Positive(n: int): nat { if n > 0 then n else 0 }

  datatype Event<T> =
    | Put(b: T)          // a thread calls `fbq_put`
    | PutGoesOn(i: nat)  // a thread that was given a token in `fbq_put` is scheduled
    | Get                // a thread calls `fbq_get`
    | GetGoesOn          // a thread that was given a token in `fbq_get` is scheduled

  predicate Enabled<T>(q: Queue<T>, e: Event<T>) {
    match e
    case PutGoesOn(i) => i < |q.ready_puts|
    case GetGoesOn => q.ready_gets > 0
    case _ => true
  }

  // ---- The two critical sections, token in hand ---------------------------------------------

  function Remove<T>(s: seq<T>, i: nat): seq<T>
    requires i < |s|
  {
    s[..i] + s[i + 1..]
  }

  /** `chSemSignalI` on `length` */
  function SignalLength<T>(q: Queue<T>): Queue<T> {
    var r := q.(length := q.length + 1);
    if q.length < 0 && q.waiting_gets > 0 then r.(waiting_gets := q.waiting_gets - 1, ready_gets := q.ready_gets + 1) else r
  }

  /** `chSemSignalI` on `capacity` */
  function SignalCapacity<T>(q: Queue<T>): Queue<T> {
    var r := q.(capacity := q.capacity + 1);
    if q.capacity < 0 && q.waiting_puts != []
    then r.(waiting_puts := q.waiting_puts[1..], ready_puts := q.ready_puts + [q.waiting_puts[0]])
    else r
  }

  function Commit<T>(q: Queue<T>, b: T): Queue<T>
    requires 0 < q.size == |q.buf|
  {
    var cnt := q.cnt + 1;
    SignalLength(q.(cnt := cnt, buf := q.buf[(q.index + cnt) % q.size := b]))
  }

  function Take<T>(q: Queue<T>): (Queue<T>, T)
    requires 0 < q.size == |q.buf| && q.cnt > 0
  {
    var index := (q.index + 1) % q.size;
    (SignalCapacity(q.(index := index, cnt := q.cnt - 1)), q.buf[index])
  }

  /** A step, what it put into the queue, and what it took out. */
  function Next<T>(q: Queue<T>, e: Event<T>): (Queue<T>, Option<T>, Option<T>)
    requires q.Valid() && Enabled(q, e)
  {
    match e
    case Put(b) =>
      var r := q.(capacity := q.capacity - 1);
      if r.capacity < 0 then (r.(waiting_puts := q.waiting_puts + [b]), None, None) else (Commit(r, b), Some(b), None)
    case PutGoesOn(i) =>
      (Commit(q.(ready_puts := Remove(q.ready_puts, i)), q.ready_puts[i]), Some(q.ready_puts[i]), None)
    case Get =>
      var r := q.(length := q.length - 1);
      if r.length < 0 then (r.(waiting_gets := q.waiting_gets + 1), None, None)
      else var (t, x) := Take(r); (t, None, Some(x))
    case GetGoesOn =>
      var (t, x) := Take(q.(ready_gets := q.ready_gets - 1)); (t, None, Some(x))
  }

  // ---- The ring ----------------------------------------------------------------------------

  /** The next position to write to is none of the unread ones. */
  lemma UnreadIsNotOverwritten(index: nat, cnt: nat, size: nat, k: nat)
    requires index < size && k < cnt < size
    ensures (index + 1 + k) % size != (index + (cnt + 1)) % size
  {
    Wrap(index + 1 + k, size);
    Wrap(index + (cnt + 1), size);
  }

  lemma Wrap(n: nat, size: nat)
    requires 0 < size && n < 2 * size
    ensures n % size == if n < size then n else n - size
  {
    if n >= size { assert n == (n - size) + size; assert (n - size) % size == n - size; ModPlus(n - size, size); }
  }

  lemma ModPlus(a: nat, size: nat)
    requires a < size
    ensures (a + size) % size == a
  {
  }

  /** `u` is what a ring holds from after `index` on. */
  ghost predicate Holds<T>(buf: seq<T>, size: nat, index: nat, u: seq<T>) {
    0 < size == |buf| && forall k :: 0 <= k < |u| ==> buf[(index + 1 + k) % size] == u[k]
  }

  lemma HoldsOneMore<T>(buf: seq<T>, size: nat, index: nat, u: seq<T>, b: T)
    requires Holds(buf, size, index, u) && index < size && |u| < size
    ensures Holds(buf[(index + (|u| + 1)) % size := b], size, index, u + [b])
  {
    forall k | 0 <= k < |u| + 1
      ensures buf[(index + (|u| + 1)) % size := b][(index + 1 + k) % size] == (u + [b])[k]
    {
      if k < |u| { UnreadIsNotOverwritten(index, |u|, size, k); }
    }
  }

  lemma HoldsOneLess<T>(buf: seq<T>, size: nat, index: nat, u: seq<T>)
    requires Holds(buf, size, index, u) && index < size && 0 < |u| <= size
    ensures buf[(index + 1) % size] == u[0] && Holds(buf, size, (index + 1) % size, u[1..])
  {
    Wrap(index + 1, size);
    forall k | 0 <= k < |u| - 1 ensures buf[((index + 1) % size + 1 + k) % size] == u[1..][k] {
      Wrap((index + 1) % size + 1 + k, size);
      Wrap(index + 1 + (k + 1), size);
      assert u[1..][k] == u[k + 1];
    }
  }

  lemma HoldsExactly<T>(q: Queue<T>, u: seq<T>)
    requires q.Valid()
    ensures |u| == q.cnt && Holds(q.buf, q.size, q.index, u) <==> u == q.Unread()
  {
    if |u| == q.cnt && Holds(q.buf, q.size, q.index, u) {
      forall k | 0 <= k < |u| ensures u[k] == q.Unread()[k] {
        assert q.buf[(q.index + 1 + k) % q.size] == u[k];
      }
    }
  }

  // ---- One step -----------------------------------------------------------------------------

  function AsSeq<T>(x: Option<T>): seq<T> { if x.Some? then [x.value] else [] }

  /** The buffers some thread is still to put in. */
  ghost function Pending<T>(q: Queue<T>): multiset<T> { multiset(q.waiting_puts) + multiset(q.ready_puts) }

  function Handed<T>(e: Event<T>): seq<T> { if e.Put? then [e.b] else [] }

  /** What every step keeps, whichever thread is scheduled: the accounts, and the queue's
      order: what goes in goes in last, what comes out was first. */
  lemma NextKeeps<T>(q: Queue<T>, e: Event<T>)
    requires q.Valid() && Enabled(q, e)
    ensures var (r, put, got) := Next(q, e);
            r.Valid() && r.size == q.size && AsSeq(got) + r.Unread() == q.Unread() + AsSeq(put)
  {
    hide Queue.Unread, Commit, Take, Remove;
    match e
    case Put(b) => if q.capacity > 0 { CommitKeeps(q, q.(capacity := q.capacity - 1), b); } else { SameUnread(q, Next(q, e).0); }
    case PutGoesOn(i) =>
      OneFewer(q.ready_puts, i);
      CommitKeeps(q, q.(ready_puts := Remove(q.ready_puts, i)), q.ready_puts[i]);
    case Get => if q.length > 0 { TakeKeeps(q, q.(length := q.length - 1)); } else { SameUnread(q, Next(q, e).0); }
    case GetGoesOn => TakeKeeps(q, q.(ready_gets := q.ready_gets - 1));
  }

  lemma OneFewer<T>(s: seq<T>, i: nat)
    requires i < |s|
    ensures |Remove(s, i)| == |s| - 1
  {
  }

  lemma SameUnread<T>(q: Queue<T>, r: Queue<T>)
    requires q.Valid() && r.Valid() && q.index == r.index && q.cnt == r.cnt && q.buf == r.buf
    ensures q.Unread() == r.Unread()
  {
  }

  /** `q` but for the token that the producer holds. */
  lemma CommitKeeps<T>(q: Queue<T>, r: Queue<T>, b: T)
    requires q.Valid() && r.size == q.size && r.index == q.index && r.cnt == q.cnt && r.buf == q.buf
    requires r.length == q.length && r.waiting_gets == q.waiting_gets && r.ready_gets == q.ready_gets
    requires r.cnt + Positive(r.capacity) + |r.ready_puts| + 1 == r.size && |r.waiting_puts| == Positive(-r.capacity)
    ensures Commit(r, b).size == q.size && Commit(r, b).Valid() && Commit(r, b).Unread() == q.Unread() + [b]
  {
    HoldsExactly(q, q.Unread());
    HoldsOneMore(q.buf, q.size, q.index, q.Unread(), b);
    HoldsExactly(Commit(r, b), q.Unread() + [b]);
  }

  /** `q` but for the token that the consumer holds. */
  lemma TakeKeeps<T>(q: Queue<T>, r: Queue<T>)
    requires q.Valid() && r.size == q.size && r.index == q.index && r.cnt == q.cnt && r.buf == q.buf
    requires r.capacity == q.capacity && r.waiting_puts == q.waiting_puts && r.ready_puts == q.ready_puts
    requires Positive(r.length) + r.ready_gets + 1 == r.cnt && r.waiting_gets == Positive(-r.length)
    ensures Take(r).0.size == q.size && Take(r).0.Valid() && [Take(r).1] + Take(r).0.Unread() == q.Unread()
  {
    HoldsExactly(q, q.Unread());
    HoldsOneLess(q.buf, q.size, q.index, q.Unread());
    HoldsExactly(Take(r).0, q.Unread()[1..]);
  }

  /** No buffer handed to `fbq_put` is lost or doubled while its thread waits. */
  lemma NextConserves<T>(q: Queue<T>, e: Event<T>)
    requires q.Valid() && Enabled(q, e)
    ensures var (r, put, got) := Next(q, e);
            multiset(AsSeq(put)) + Pending(r) == multiset(Handed(e)) + Pending(q)
  {
    match e
    case Put(b) =>
    case PutGoesOn(i) =>
      assert q.ready_puts == q.ready_puts[..i] + [q.ready_puts[i]] + q.ready_puts[i + 1..];
    case Get => SignalConserves(q.(length := q.length - 1));
    case GetGoesOn => SignalConserves(q.(ready_gets := q.ready_gets - 1));
  }

  /** Producers that wait are let in in the order in which they came. */
  lemma FirstComeFirstServed<T>(q: Queue<T>, e: Event<T>)
    requires q.Valid() && Enabled(q, e)
    ensures var r := Next(q, e).0;
            var were := q.ready_puts + q.waiting_puts;
            match e
            case Put(b) => r.ready_puts + r.waiting_puts == if q.capacity > 0 then were else were + [b]
            case PutGoesOn(i) => r.ready_puts + r.waiting_puts == were[..i] + were[i + 1..]
            case Get | GetGoesOn => r.ready_puts + r.waiting_puts == were && |r.ready_puts| >= |q.ready_puts|
  {
    hide Queue.Unread, Queue.Valid;
    match e
    case Put(b) => assert q.ready_puts + (q.waiting_puts + [b]) == q.ready_puts + q.waiting_puts + [b];
    case PutGoesOn(i) =>
    case Get | GetGoesOn => if q.waiting_puts != [] { assert q.waiting_puts == [q.waiting_puts[0]] + q.waiting_puts[1..]; }
  }

  lemma SignalConserves<T>(q: Queue<T>)
    ensures Pending(SignalCapacity(q)) == Pending(q)
  {
    if q.waiting_puts != [] {
      assert q.waiting_puts == [q.waiting_puts[0]] + q.waiting_puts[1..];
    }
  }

  // ---- Runs -----------------------------------------------------------------------------------

  datatype Trace<T> = Trace(last: Queue<T>, put: seq<T>, got: seq<T>, handed: seq<T>)

  ghost predicate Possible<T>(q: Queue<T>, es: seq<Event<T>>)
    requires q.Valid()
    decreases |es|
  {
    es == [] || (Enabled(q, es[0]) && (NextKeeps(q, es[0]); Possible(Next(q, es[0]).0, es[1..])))
  }

  function Run<T>(q: Queue<T>, es: seq<Event<T>>): Trace<T>
    requires q.Valid() && Possible(q, es)
    decreases |es|
  {
    if es == [] then Trace(q, [], [], [])
    else
      var (r, put, got) := Next(q, es[0]);
      var t := Run(r, es[1..]);
      Trace(t.last, AsSeq(put) + t.put, AsSeq(got) + t.got, Handed(es[0]) + t.handed)
  }

  /** Under any interleaving of any number of producers and consumers the accounts stay
      right, what was taken followed by what is still there is what was there at first
      followed by what was put in, in that order, and every buffer handed to `fbq_put` has
      been put in or is in the hands of a thread in `fbq_put`. */
  lemma {:induction false} AnyInterleaving<T>(q: Queue<T>, es: seq<Event<T>>)
    requires q.Valid() && Possible(q, es)
    ensures var t := Run(q, es);
            && t.last.Valid() && t.last.size == q.size
            && t.got + t.last.Unread() == q.Unread() + t.put
            && multiset(t.put) + Pending(t.last) == Pending(q) + multiset(t.handed)
    decreases |es|
  {
    if es != [] {
      RunUnfolds(q, es);
      hide Queue.Valid, Queue.Unread, Pending, Next, Run;
      var (r, put, got) := Next(q, es[0]);
      NextKeeps(q, es[0]);
      NextConserves(q, es[0]);
      AnyInterleaving(r, es[1..]);
      var u := Run(r, es[1..]);
      Chained(AsSeq(got), u.got, u.last.Unread(), r.Unread(), u.put, q.Unread(), AsSeq(put));
      Conserved(AsSeq(put), u.put, Pending(u.last), Pending(r), Pending(q), Handed(es[0]), u.handed);
    }
  }

  lemma RunUnfolds<T>(q: Queue<T>, es: seq<Event<T>>)
    requires q.Valid() && Possible(q, es) && es != []
    ensures var (r, put, got) := Next(q, es[0]);
            && r.Valid() && Possible(r, es[1..])
            && var u := Run(r, es[1..]);
               Run(q, es) == Trace(u.last, AsSeq(put) + u.put, AsSeq(got) + u.got, Handed(es[0]) + u.handed)
  {
    NextKeeps(q, es[0]);
    hide Next, Queue.Valid, Queue.Unread;
  }

  lemma Conserved<T>(put: seq<T>, puts: seq<T>, last: multiset<T>, mid: multiset<T>, first: multiset<T>, handed: seq<T>, later: seq<T>)
    requires multiset(put) + mid == multiset(handed) + first && multiset(puts) + last == mid + multiset(later)
    ensures multiset(put + puts) + last == first + multiset(handed + later)
  {
    assert multiset(put + puts) == multiset(put) + multiset(puts);
    assert multiset(handed + later) == multiset(handed) + multiset(later);
    forall x ensures (multiset(put + puts) + last)[x] == (first + multiset(handed + later))[x] {
      assert (multiset(put) + mid)[x] == (multiset(handed) + first)[x];
      assert (multiset(puts) + last)[x] == (mid + multiset(later))[x];
    }
  }

  lemma Chained<T>(got: seq<T>, gots: seq<T>, last: seq<T>, mid: seq<T>, puts: seq<T>, first: seq<T>, put: seq<T>)
    requires gots + last == mid + puts && got + mid == first + put
    ensures (got + gots) + last == first + (put + puts)
  {
    assert (got + gots) + last == got + (gots + last);
    assert got + (mid + puts) == (got + mid) + puts;
  }

  // ---- What the tests on the counters mean, and progress -----------------------------------------

  /** `fbq_eof`: nothing in the queue, and nobody already let in to put something there. */
  lemma EofIff<T>(q: Queue<T>)
    requires q.Valid()
    ensures q.Eof() <==> q.Unread() == [] && q.ready_puts == []
  {
    assert |q.Unread()| == q.cnt;
  }

  /** `fbq_full`: no room left and nobody waiting for room; once a producer waits it is false again. */
  lemma FullIff<T>(q: Queue<T>)
    requires q.Valid()
    ensures q.Full() <==> q.cnt + |q.ready_puts| == q.size && q.waiting_puts == []
  {
  }

  /** Some thread can always go on: producers wait only while the queue is taken up, and
      consumers only while every buffer in it is spoken for. */
  lemma NoDeadlock<T>(q: Queue<T>)
    requires q.Valid()
    ensures q.waiting_puts != [] ==> q.cnt + |q.ready_puts| == q.size
    ensures q.waiting_gets > 0 ==> q.cnt == q.ready_gets
    ensures q.waiting_puts != [] && q.waiting_gets > 0 ==> Enabled(q, PutGoesOn(0)) || Enabled(q, GetGoesOn)
  {
  }

  // ---- The queue itself -------------------------------------------------------------------------

  class Fbq<T> {
    const size: nat
    var index: nat
    var cnt: nat
    const buf: array<T>
    var capacity: int
    var length: int

    // the threads inside `fbq_put` and `fbq_get`, as the kernel keeps them
    var waiting_puts: seq<T>
    var ready_puts: seq<T>
    var waiting_gets: nat
    var ready_gets: nat

    ghost function State(): Queue<T>
      reads this, buf
    {
      Queue(size, index, cnt, buf[..], capacity, length, waiting_puts, ready_puts, waiting_gets, ready_gets)
    }

    /** `_fbq_init` */
    constructor (buf: array<T>, sz: nat)
      requires 0 < sz == buf.Length < 256
      ensures State().Valid() && State().Unread() == [] && Pending(State()) == multiset{}
      ensures this.buf == buf && size == sz && State().Eof()
    {
      size, this.buf := sz, buf;
      index, cnt := 0, 0;
      length, capacity := 0, sz;
      waiting_puts, ready_puts, waiting_gets, ready_gets := [], [], 0, 0;
    }

    /** The body of `fbq_put` behind the wait. */
    method Store(b: T)
      requires 0 < size == buf.Length && cnt < size && (length < 0 ==> waiting_gets > 0)
      modifies this, buf
      ensures State() == Commit(old(State()), b)
    {
      cnt := cnt + 1;
      var i := (index + cnt) % size;
      buf[i] := b;
      length := length + 1;
      if length <= 0 {
        waiting_gets, ready_gets := waiting_gets - 1, ready_gets + 1;
      }
    }

    /** The body of `fbq_get` behind the wait. */
    method Fetch() returns (x: T)
      requires 0 < size == buf.Length && cnt > 0 && (capacity < 0 ==> waiting_puts != [])
      modifies this
      ensures (State(), x) == Take(old(State()))
    {
      index := (index + 1) % size;
      x := buf[index];
      cnt := cnt - 1;
      capacity := capacity + 1;
      if capacity <= 0 {
        waiting_puts, ready_puts := waiting_puts[1..], ready_puts + [waiting_puts[0]];
      }
    }

    /** `fbq_put` as far as it gets at once. */
    method PutBuffer(b: T) returns (done: bool)
      requires State().Valid()
      modifies this, buf
      ensures State() == Next(old(State()), Put(b)).0 && State().Valid()
      ensures done == Next(old(State()), Put(b)).1.Some?
      ensures done ==> State().Unread() == old(State().Unread()) + [b]
    {
      NextKeeps(State(), Put(b));
      capacity := capacity - 1;
      done := capacity >= 0;
      if done {
        Store(b);
      } else {
        waiting_puts := waiting_puts + [b];
      }
    }

    /** The rest of `fbq_put` in a thread that had to wait. */
    method ResumePut(i: nat)
      requires State().Valid() && i < |ready_puts|
      modifies this, buf
      ensures State() == Next(old(State()), PutGoesOn(i)).0 && State().Valid()
      ensures State().Unread() == old(State().Unread()) + [old(ready_puts[i])]
    {
      NextKeeps(State(), PutGoesOn(i));
      var b := ready_puts[i];
      ready_puts := Remove(ready_puts, i);
      Store(b);
    }

    /** `fbq_get` as far as it gets at once. */
    method GetBuffer() returns (x: Option<T>)
      requires State().Valid()
      modifies this
      ensures State() == Next(old(State()), Get).0 && State().Valid()
      ensures x == Next(old(State()), Get).2
      ensures x.Some? ==> [x.value] + State().Unread() == old(State().Unread())
    {
      NextKeeps(State(), Get);
      length := length - 1;
      if length < 0 {
        waiting_gets := waiting_gets + 1;
        x := None;
      } else {
        var b := Fetch();
        x := Some(b);
      }
    }

    /** The rest of `fbq_get` in a thread that had to wait. */
    method ResumeGet() returns (x: T)
      requires State().Valid() && ready_gets > 0
      modifies this
      ensures State() == Next(old(State()), GetGoesOn).0 && State().Valid()
      ensures [x] + State().Unread() == old(State().Unread())
    {
      NextKeeps(State(), GetGoesOn);
      ready_gets := ready_gets - 1;
      x := Fetch();
    }
  }
}
