/**
 * The state exchange of a replica community. A serialised replica is cut
 * into numbered fragments that each fit one datagram; a receiver collects
 * the fragments of a message id until all have arrived, joins them in index
 * order, and routes the result to the main replica or to a named inner
 * replica. Serialisation, peers, the network, timing and statistics are
 * outside the model: the serialised bytes and the random message ids are
 * inputs.
 */
module CrdtCommunity {
  import opened Wrappers
  import opened BloomFilter
  import CrdtSet

  type Bytes = seq<bv8>

  /** The largest blob one state message carries. */
  const FragmentMaxSize: nat := 63 * 1024

  /** A state message: message id, time to live, fragment index, fragment count, replica id and blob. */
  datatype StateMessage = StateMessage(id: nat, ttl: nat, index: nat, total: nat, replicaId: string, blob: Bytes)

  function Min(a: int, b: int): int
  {
    if a <= b then a else b
  }

  /** The number of fragments of an `n`-byte buffer: n / FragmentMaxSize rounded up. */
  function FragmentCount(n: nat): (c: nat)
    ensures c * FragmentMaxSize >= n
    ensures c > 0 ==> (c - 1) * FragmentMaxSize < n
    ensures n > 0 ==> c > 0
  {
    (n + FragmentMaxSize - 1) / FragmentMaxSize
  }

  /** Fragment `n` of `buffer`: at most FragmentMaxSize bytes from offset n * FragmentMaxSize. */
  function Slice(buffer: Bytes, n: nat): (r: Bytes)
    requires n < FragmentCount(|buffer|)
    ensures 0 < |r| <= FragmentMaxSize
  {
    OffsetInRange(|buffer|, n);
    var offset := n * FragmentMaxSize;
    buffer[offset .. offset + Min(FragmentMaxSize, |buffer| - offset)]
  }

  lemma OffsetInRange(len: nat, n: nat)
    requires n < FragmentCount(len)
    ensures n * FragmentMaxSize < len
  {
    var c := FragmentCount(len);
    assert n * FragmentMaxSize <= (c - 1) * FragmentMaxSize;
  }

  /** `msgs` are the fragments send_state emits for `buffer` under message id `id`. */
  ghost predicate Fragments(msgs: seq<StateMessage>, id: nat, replicaId: string, buffer: Bytes)
  {
    |msgs| == FragmentCount(|buffer|) &&
    forall n :: 0 <= n < |msgs| ==> msgs[n] == StateMessage(id, 1, n, |msgs|, replicaId, Slice(buffer, n))
  }

  /** The blobs of `msgs` joined in list order. */
  function Blobs(msgs: seq<StateMessage>): Bytes
  {
    if |msgs| == 0 then [] else Blobs(msgs[..|msgs| - 1]) + msgs[|msgs| - 1].blob
  }

  /**
   * send_state: one message per fragment, indexed from 0, all carrying the
   * same id and fragment count; a missing or empty replica id goes out empty.
   */
  method SendState(id: nat, replicaId: Option<string>, buffer: Bytes) returns (sent: seq<StateMessage>)
    ensures Fragments(sent, id, if replicaId.None? then "" else replicaId.value, buffer)
  {
    var fragments := FragmentCount(|buffer|);
    var wireId := if replicaId.None? || |replicaId.value| == 0 then "" else replicaId.value;
    sent := [];
    for n := 0 to fragments
      invariant |sent| == n
      invariant forall i :: 0 <= i < n ==> sent[i] == StateMessage(id, 1, i, fragments, wireId, Slice(buffer, i))
    {
      OffsetInRange(|buffer|, n);
      var offset := n * FragmentMaxSize;
      var length := Min(FragmentMaxSize, |buffer| - offset);
      sent := sent + [StateMessage(id, 1, n, fragments, wireId, buffer[offset .. offset + length])];
    }
  }

  /** Every fragment fits the size limit, and there are as many as the size limit demands. */
  lemma FragmentsFit(msgs: seq<StateMessage>, id: nat, replicaId: string, buffer: Bytes)
    requires Fragments(msgs, id, replicaId, buffer)
    ensures forall m :: m in msgs ==> |m.blob| <= FragmentMaxSize && m.id == id && m.total == |msgs|
    ensures |msgs| * FragmentMaxSize >= |buffer| && (|buffer| > 0 ==> (|msgs| - 1) * FragmentMaxSize < |buffer|)
  {
  }

  /** Joining the fragments in index order gives back the buffer. */
  lemma FragmentsJoin(msgs: seq<StateMessage>, id: nat, replicaId: string, buffer: Bytes)
    requires Fragments(msgs, id, replicaId, buffer)
    ensures Blobs(msgs) == buffer
  {
    var c := |msgs|;
    if c == 0 {
      assert |buffer| == 0;
    } else {
      JoinPrefix(msgs, id, replicaId, buffer, c);
      assert msgs[..c] == msgs;
      assert Min(c * FragmentMaxSize, |buffer|) == |buffer|;
      assert buffer[..|buffer|] == buffer;
    }
  }

  lemma {:induction false} JoinPrefix(msgs: seq<StateMessage>, id: nat, replicaId: string, buffer: Bytes, k: nat)
    requires Fragments(msgs, id, replicaId, buffer)
    requires k <= |msgs|
    ensures Blobs(msgs[..k]) == buffer[..Min(k * FragmentMaxSize, |buffer|)]
  {
    if k > 0 {
      JoinPrefix(msgs, id, replicaId, buffer, k - 1);
      assert msgs[..k][..k - 1] == msgs[..k - 1];
      OffsetInRange(|buffer|, k - 1);
      var lo := (k - 1) * FragmentMaxSize;
      assert k * FragmentMaxSize == lo + FragmentMaxSize;
      var hi := Min(k * FragmentMaxSize, |buffer|);
      assert Min(lo, |buffer|) == lo;
      assert msgs[k - 1].blob == buffer[lo .. hi];
      PrefixSplit(buffer, lo, hi);
    }
  }

  lemma PrefixSplit<T>(s: seq<T>, lo: nat, hi: nat)
    requires lo <= hi <= |s|
    ensures s[..hi] == s[..lo] + s[lo .. hi]
  {
  }

  lemma Snoc<T>(s: seq<T>)
    requires |s| > 0
    ensures s[..|s| - 1] + [s[|s| - 1]] == s
  {
  }

  lemma PrefixStep<T>(s: seq<T>, j: nat)
    requires 0 < j <= |s|
    ensures s[..j][..j - 1] == s[..j - 1]
    ensures s[..j - 1] + [s[j - 1]] == s[..j]
  {
  }

  // ---------------------------------------------------------------- ordering

  predicate SortedByIndex(s: seq<StateMessage>)
  {
    forall i, j :: 0 <= i < j < |s| ==> s[i].index <= s[j].index
  }

  /** Places `m` after every message whose index is not larger, as a stable sort does. */
  function InsertByIndex(m: StateMessage, s: seq<StateMessage>): (r: seq<StateMessage>)
    requires SortedByIndex(s)
    ensures SortedByIndex(r) && multiset(r) == multiset(s) + multiset{m}
  {
    if |s| == 0 then [m]
    else if m.index < s[0].index then [m] + s
    else
      var t := InsertByIndex(m, s[1..]);
      StaysAbove(s, m, t);
      [s[0]] + t
  }

  /** What goes after the head of a sorted list, together with a message not below it, stays at or above the head. */
  lemma StaysAbove(s: seq<StateMessage>, m: StateMessage, t: seq<StateMessage>)
    requires SortedByIndex(s) && |s| > 0 && s[0].index <= m.index
    requires SortedByIndex(t) && multiset(t) == multiset(s[1..]) + multiset{m}
    ensures SortedByIndex([s[0]] + t)
    ensures multiset([s[0]] + t) == multiset(s) + multiset{m}
  {
    assert s == [s[0]] + s[1..];
    forall x | x in t
      ensures s[0].index <= x.index
    {
      assert x in multiset(t);
    }
  }

  /** list.sort(key=lambda p: p.index): a stable sort by fragment index. */
  function SortByIndex(s: seq<StateMessage>): (r: seq<StateMessage>)
    ensures SortedByIndex(r) && multiset(r) == multiset(s)
  {
    if |s| == 0 then []
    else
      assert s == s[..|s| - 1] + [s[|s| - 1]];
      InsertByIndex(s[|s| - 1], SortByIndex(s[..|s| - 1]))
  }

  /** A list sorted by index holding the same messages as one whose message i has index i is that list. */
  lemma {:induction false} SortedIsIdentity(r: seq<StateMessage>, msgs: seq<StateMessage>)
    requires SortedByIndex(r) && multiset(r) == multiset(msgs)
    requires forall i :: 0 <= i < |msgs| ==> msgs[i].index == i
    ensures r == msgs
  {
    assert |r| == |multiset(r)| == |multiset(msgs)| == |msgs|;
    var n := |msgs|;
    if n > 0 {
      var last := msgs[n - 1];
      LastIsLargest(r, msgs);
      var r', msgs' := r[..n - 1], msgs[..n - 1];
      assert r == r' + [last];
      assert msgs == msgs' + [last];
      Cancel(r', msgs', last);
      SortedIsIdentity(r', msgs');
    }
  }

  lemma Cancel(a: seq<StateMessage>, b: seq<StateMessage>, x: StateMessage)
    requires multiset(a + [x]) == multiset(b + [x])
    ensures multiset(a) == multiset(b)
  {
    var A, B := multiset(a), multiset(b);
    assert A + multiset{x} == B + multiset{x};
    forall z
      ensures A[z] == B[z]
    {
      assert (A + multiset{x})[z] == (B + multiset{x})[z];
    }
  }

  /** The message with the largest index ends a list sorted by index. */
  lemma LastIsLargest(r: seq<StateMessage>, msgs: seq<StateMessage>)
    requires SortedByIndex(r) && multiset(r) == multiset(msgs) && |r| == |msgs| > 0
    requires forall i :: 0 <= i < |msgs| ==> msgs[i].index == i
    ensures r[|r| - 1] == msgs[|msgs| - 1]
  {
    var n := |msgs|;
    assert msgs[n - 1] in multiset(r);
    var p :| 0 <= p < n && r[p] == msgs[n - 1];
    assert r[n - 1] in multiset(msgs);
    var k :| 0 <= k < n && msgs[k] == r[n - 1];
    assert r[p].index <= r[n - 1].index;
  }

  // -------------------------------------------------------------- reassembly

  /**
   * on_state before routing: a single-fragment message is the buffer; a
   * fragment of a longer message is stored under its id, and once the stored
   * list holds `total` fragments it is removed and its blobs joined in index
   * order. Gives the fragment store afterwards and the buffer, if complete.
   */
  function Receive(fragments: map<nat, seq<StateMessage>>, payload: StateMessage)
    : (r: (map<nat, seq<StateMessage>>, Option<Bytes>))
    ensures r.1.None? ==>
      payload.total > 1 && payload.id in r.0 && |r.0[payload.id]| != payload.total
  {
    if payload.total <= 1 then (fragments, Some(payload.blob))
    else
      var list := (if payload.id in fragments then fragments[payload.id] else []) + [payload];
      if |list| == payload.total then (fragments - {payload.id}, Some(Blobs(SortByIndex(list))))
      else (fragments[payload.id := list], None)
  }

  /** A multi-fragment message yields a buffer exactly when its stored fragments reach the announced count. */
  lemma ReceiveCompletes(fragments: map<nat, seq<StateMessage>>, payload: StateMessage)
    requires payload.total > 1
    ensures Receive(fragments, payload).1.Some? <==>
      (if payload.id in fragments then |fragments[payload.id]| else 0) + 1 == payload.total
    ensures Receive(fragments, payload).1.Some? ==> payload.id !in Receive(fragments, payload).0
    ensures forall other :: other != payload.id ==>
      (other in Receive(fragments, payload).0 <==> other in fragments) &&
      (other in fragments ==> Receive(fragments, payload).0[other] == fragments[other])
  {
  }

  /** The store after a sequence of arrivals, and what each arrival produced. */
  function Run(fragments: map<nat, seq<StateMessage>>, arrivals: seq<StateMessage>)
    : (map<nat, seq<StateMessage>>, seq<Option<Bytes>>)
  {
    if |arrivals| == 0 then (fragments, [])
    else
      var prev := Run(fragments, arrivals[..|arrivals| - 1]);
      var step := Receive(prev.0, arrivals[|arrivals| - 1]);
      (step.0, prev.1 + [step.1])
  }

  /**
   * Delivering every fragment of a buffer exactly once, in any order, to a
   * store holding nothing under that id: only the last arrival yields a
   * buffer, it is the original, and the store ends as it began.
   */
  lemma RoundTrip(msgs: seq<StateMessage>, id: nat, replicaId: string, buffer: Bytes,
                  arrivals: seq<StateMessage>, fragments: map<nat, seq<StateMessage>>)
    requires Fragments(msgs, id, replicaId, buffer) && |buffer| > 0
    requires multiset(arrivals) == multiset(msgs)
    requires id !in fragments
    ensures |Run(fragments, arrivals).1| == |arrivals| == |msgs|
    ensures Run(fragments, arrivals).0 == fragments
    ensures Run(fragments, arrivals).1[|arrivals| - 1] == Some(buffer)
    ensures forall i :: 0 <= i < |arrivals| - 1 ==> Run(fragments, arrivals).1[i].None?
  {
    var n := |msgs|;
    FragmentsJoin(msgs, id, replicaId, buffer);
    Headers(msgs, id, replicaId, buffer, arrivals);
    if n == 1 {
      assert arrivals[0] in arrivals;
      OneOfOne(msgs, arrivals, buffer, fragments);
    } else {
      ManyFragments(msgs, arrivals, id, fragments);
    }
  }

  /** Every arrival carries the message id and fragment count, and message i of the send has index i. */
  lemma Headers(msgs: seq<StateMessage>, id: nat, replicaId: string, buffer: Bytes, arrivals: seq<StateMessage>)
    requires Fragments(msgs, id, replicaId, buffer)
    requires multiset(arrivals) == multiset(msgs)
    ensures |arrivals| == |msgs|
    ensures forall i :: 0 <= i < |msgs| ==> msgs[i].index == i
    ensures forall a :: a in arrivals ==> a.id == id && a.total == |msgs|
  {
    assert |arrivals| == |multiset(arrivals)| == |msgs|;
    forall a | a in arrivals
      ensures a.id == id && a.total == |msgs|
    {
      assert a in multiset(msgs);
    }
  }

  /** The round trip of a buffer cut into two or more fragments. */
  lemma ManyFragments(msgs: seq<StateMessage>, arrivals: seq<StateMessage>, id: nat,
                      fragments: map<nat, seq<StateMessage>>)
    requires |msgs| > 1 && |arrivals| == |msgs| && multiset(arrivals) == multiset(msgs)
    requires forall i :: 0 <= i < |msgs| ==> msgs[i].index == i
    requires forall a :: a in arrivals ==> a.id == id && a.total == |msgs|
    requires id !in fragments
    ensures Run(fragments, arrivals).0 == fragments
    ensures |Run(fragments, arrivals).1| == |arrivals|
    ensures Run(fragments, arrivals).1[|arrivals| - 1] == Some(Blobs(msgs))
    ensures forall i :: 0 <= i < |arrivals| - 1 ==> Run(fragments, arrivals).1[i].None?
  {
    var n := |msgs|;
    RunCollects(arrivals, id, n, fragments, n - 1);
    LastFragment(msgs, arrivals, id, fragments);
  }

  /** A message announcing at most one fragment comes straight out and leaves the store alone. */
  lemma SingleFragment(m: StateMessage, fragments: map<nat, seq<StateMessage>>)
    requires m.total <= 1
    ensures Run(fragments, [m]) == (fragments, [Some(m.blob)])
  {
    var prev := Run(fragments, [m][..0]);
    assert [m][..0] == [];
    assert prev == (fragments, []);
    assert Receive(prev.0, m) == (fragments, Some(m.blob));
    assert prev.1 + [Some(m.blob)] == [Some(m.blob)];
  }

  lemma OneOfOne(msgs: seq<StateMessage>, arrivals: seq<StateMessage>, buffer: Bytes,
                  fragments: map<nat, seq<StateMessage>>)
    requires |msgs| == 1 && multiset(arrivals) == multiset(msgs) && |arrivals| == 1
    requires Blobs(msgs) == buffer && arrivals[0].total == 1
    ensures Run(fragments, arrivals) == (fragments, [Some(buffer)])
  {
    assert arrivals[0] in multiset(msgs);
    assert arrivals == [msgs[0]] == msgs;
    assert msgs[..0] == [];
    assert Blobs(msgs) == Blobs(msgs[..0]) + msgs[0].blob == msgs[0].blob;
    SingleFragment(msgs[0], fragments);
  }

  lemma LastFragment(msgs: seq<StateMessage>, arrivals: seq<StateMessage>, id: nat,
                     fragments: map<nat, seq<StateMessage>>)
    requires |msgs| > 1 && |arrivals| == |msgs| && multiset(arrivals) == multiset(msgs)
    requires forall i :: 0 <= i < |msgs| ==> msgs[i].index == i
    requires forall a :: a in arrivals ==> a.id == id && a.total == |msgs|
    requires id !in fragments
    requires Run(fragments, arrivals[..|msgs| - 1]).0 == fragments[id := arrivals[..|msgs| - 1]]
    ensures Run(fragments, arrivals).0 == fragments
    ensures Run(fragments, arrivals).1 == Run(fragments, arrivals[..|msgs| - 1]).1 + [Some(Blobs(msgs))]
  {
    var n := |msgs|;
    var pre, a := arrivals[..n - 1], arrivals[n - 1];
    Snoc(arrivals);
    assert a.id == id && a.total == n by { assert a in arrivals; }
    var prev := Run(fragments, pre);
    SortedIsIdentity(SortByIndex(arrivals), msgs);
    assert prev.0[id] + [a] == arrivals;
    assert prev.0 - {id} == fragments;
    assert Receive(prev.0, a) == (fragments, Some(Blobs(msgs)));
    assert Run(fragments, arrivals) == (fragments, prev.1 + [Some(Blobs(msgs))]);
  }

  /** One more fragment short of the total is appended to the stored list of its id. */
  lemma CollectStep(store: map<nat, seq<StateMessage>>, fragments: map<nat, seq<StateMessage>>, id: nat, n: nat,
                    sofar: seq<StateMessage>, a: StateMessage)
    requires n > 1 && a.id == id && a.total == n && |sofar| + 1 < n && id !in fragments
    requires store == if |sofar| == 0 then fragments else fragments[id := sofar]
    ensures Receive(store, a) == (fragments[id := sofar + [a]], None)
  {
    var list := (if a.id in store then store[a.id] else []) + [a];
    if |sofar| == 0 {
      assert sofar == [];
    }
    assert list == sofar + [a] && |list| != a.total;
    assert Receive(store, a) == (store[a.id := list], None);
    assert store[a.id := list] == fragments[id := sofar + [a]];
  }

  /** Before the last fragment arrives, the store holds the arrivals so far and nothing was produced. */
  lemma {:induction false} RunCollects(arrivals: seq<StateMessage>, id: nat, n: nat,
                                       fragments: map<nat, seq<StateMessage>>, j: nat)
    requires n > 1 && j < n && j <= |arrivals|
    requires forall a :: a in arrivals ==> a.id == id && a.total == n
    requires id !in fragments
    ensures |Run(fragments, arrivals[..j]).1| == j
    ensures forall i :: 0 <= i < j ==> Run(fragments, arrivals[..j]).1[i].None?
    ensures Run(fragments, arrivals[..j]).0 == if j == 0 then fragments else fragments[id := arrivals[..j]]
  {
    if j > 0 {
      RunCollects(arrivals, id, n, fragments, j - 1);
      PrefixStep(arrivals, j);
      var pre, a := arrivals[..j - 1], arrivals[j - 1];
      assert a.id == id && a.total == n by { assert a in arrivals; }
      var prev := Run(fragments, pre);
      CollectStep(prev.0, fragments, id, n, pre, a);
      assert pre + [a] == arrivals[..j];
      assert Run(fragments, arrivals[..j]) == (fragments[id := arrivals[..j]], prev.1 + [None]);
    }
  }

  /** The fragment-joining loop of on_state. */
  method JoinBlobs(list: seq<StateMessage>) returns (buffer: Bytes)
    ensures buffer == Blobs(list)
  {
    buffer := [];
    for i := 0 to |list|
      invariant buffer == Blobs(list[..i])
    {
      assert list[..i + 1][..i] == list[..i];
      buffer := buffer + list[i].blob;
    }
    assert list[..|list|] == list;
  }

  /** The peer loop of broadcast_state: send_state once per peer, each under its own message id. */
  method SendToPeers(replicaId: Option<string>, buffer: Bytes, ids: seq<nat>) returns (sent: seq<seq<StateMessage>>)
    ensures |sent| == |ids|
    ensures forall p :: 0 <= p < |sent| ==> Fragments(sent[p], ids[p], if replicaId.None? then "" else replicaId.value, buffer)
  {
    sent := [];
    for p := 0 to |ids|
      invariant |sent| == p
      invariant forall q :: 0 <= q < p ==> Fragments(sent[q], ids[q], if replicaId.None? then "" else replicaId.value, buffer)
    {
      var msgs := SendState(ids[p], replicaId, buffer);
      sent := sent + [msgs];
    }
  }

  // ---------------------------------------------------------------- community

  /** A community endpoint: the main replica, the inner replicas by id, and the fragments awaiting completion. */
  class Community<T(==,!new)> {
    const replica: CrdtSet.CrdtSet<T>
    var innerReplicas: map<string, CrdtSet.CrdtSet<T>>
    var messageFragments: map<nat, seq<StateMessage>>
    const hashing: Hashing

    ghost predicate Valid()
      reads this
    {
      hashing.Valid()
    }

    /** A community on the given replica, or on a new empty one. */
    constructor (state: Option<CrdtSet.CrdtSet<T>>, hashing: Hashing)
      requires hashing.Valid()
      ensures Valid() && this.hashing == hashing
      ensures innerReplicas == map[] && messageFragments == map[]
      ensures state.Some? ==> replica == state.value
      ensures state.None? ==> fresh(replica) && replica.entries == {} && replica.Dirty
    {
      if state.Some? {
        replica := state.value;
      } else {
        replica := new CrdtSet.CrdtSet(hashing);
      }
      innerReplicas := map[];
      messageFragments := map[];
      this.hashing := hashing;
    }

    /** The replica a broadcast for `replicaId` concerns. */
    function Target(replicaId: Option<string>): CrdtSet.CrdtSet<T>
      requires replicaId.Some? && replicaId.value != "" ==> replicaId.value in innerReplicas
      reads this
    {
      if replicaId.None? || replicaId.value == "" then replica else innerReplicas[replicaId.value]
    }

    /**
     * broadcast_state: a clean replica sends nothing; a dirty one sends its
     * serialised state `buffer` to every peer, under the message id drawn
     * for that peer, and becomes clean.
     */
    method BroadcastState(replicaId: Option<string>, buffer: Bytes, ids: seq<nat>) returns (sent: seq<seq<StateMessage>>)
      requires replicaId.Some? && replicaId.value != "" ==> replicaId.value in innerReplicas
      modifies Target(replicaId)
      ensures !old(Target(replicaId).Dirty) ==> sent == [] && !Target(replicaId).Dirty
      ensures old(Target(replicaId).Dirty) ==> !Target(replicaId).Dirty && |sent| == |ids|
      ensures old(Target(replicaId).Dirty) ==> forall p :: 0 <= p < |sent| ==>
        Fragments(sent[p], ids[p], if replicaId.None? then "" else replicaId.value, buffer)
      ensures Target(replicaId).entries == old(Target(replicaId).entries)
      ensures Target(replicaId).bloomfilters == old(Target(replicaId).bloomfilters)
    {
      var target := Target(replicaId);
      sent := [];
      if !target.Dirty {
        return;
      }
      sent := SendToPeers(replicaId, buffer, ids);
      target.Dirty := false;
    }

    /** The fragment handling of on_state, proved against Receive. */
    method Reassemble(payload: StateMessage) returns (buffer: Option<Bytes>)
      modifies this
      ensures (messageFragments, buffer) == Receive(old(messageFragments), payload)
      ensures innerReplicas == old(innerReplicas)
    {
      if payload.total > 1 {
        if payload.id !in messageFragments {
          messageFragments := messageFragments[payload.id := []];
        }
        var list := messageFragments[payload.id] + [payload];
        assert list == (if payload.id in old(messageFragments) then old(messageFragments)[payload.id] else []) + [payload];
        messageFragments := messageFragments[payload.id := list];
        assert messageFragments == old(messageFragments)[payload.id := list];
        if |list| == payload.total {
          messageFragments := messageFragments - {payload.id};
          assert messageFragments == old(messageFragments) - {payload.id};
          var sorted := SortByIndex(list);
          var joined := JoinBlobs(sorted);
          buffer := Some(joined);
          assert Receive(old(messageFragments), payload) == (messageFragments, buffer);
        } else {
          buffer := None;
          assert Receive(old(messageFragments), payload) == (messageFragments, buffer);
        }
      } else {
        buffer := Some(payload.blob);
      }
    }

    /** The routing of on_state: an empty id is the main replica; an unknown id first gets a new empty replica. */
    method TargetFor(replicaId: string) returns (target: CrdtSet.CrdtSet<T>)
      requires Valid()
      modifies this
      ensures Valid() && messageFragments == old(messageFragments)
      ensures replicaId == "" ==> target == replica && innerReplicas == old(innerReplicas)
      ensures replicaId != "" && replicaId in old(innerReplicas) ==>
        target == old(innerReplicas)[replicaId] && innerReplicas == old(innerReplicas)
      ensures replicaId != "" && replicaId !in old(innerReplicas) ==>
        fresh(target) && target.entries == {} && innerReplicas == old(innerReplicas)[replicaId := target]
    {
      if |replicaId| == 0 {
        target := replica;
      } else {
        if replicaId !in innerReplicas {
          var made := new CrdtSet.CrdtSet(hashing);
          innerReplicas := innerReplicas[replicaId := made];
        }
        target := innerReplicas[replicaId];
      }
    }

    /**
     * on_state up to the merge: the reassembled buffer, if complete, and the
     * replica it is to be merged into.
     */
    method OnState(payload: StateMessage) returns (buffer: Option<Bytes>, target: Option<CrdtSet.CrdtSet<T>>)
      requires Valid()
      modifies this
      ensures Valid()
      ensures (messageFragments, buffer) == Receive(old(messageFragments), payload)
      ensures buffer.None? ==> target.None? && innerReplicas == old(innerReplicas)
      ensures buffer.Some? && payload.replicaId == "" ==> target == Some(replica) && innerReplicas == old(innerReplicas)
      ensures buffer.Some? && payload.replicaId != "" && payload.replicaId in old(innerReplicas) ==>
        target == Some(old(innerReplicas)[payload.replicaId]) && innerReplicas == old(innerReplicas)
      ensures buffer.Some? && payload.replicaId != "" && payload.replicaId !in old(innerReplicas) ==>
        target.Some? && fresh(target.value) && target.value.entries == {} &&
        innerReplicas == old(innerReplicas)[payload.replicaId := target.value]
    {
      buffer := Reassemble(payload);
      if buffer.None? {
        return buffer, None;
      }
      var t := TargetFor(payload.replicaId);
      target := Some(t);
    }
  }
}
