/**
 poll_bridge (main.c:184-216): the accumulator that cuts the UART byte stream into messages.
 Bytes arrive in chunks between polls; a poll drains what fits, then hands every complete
 value to the decoder.
 */
module BridgeStream {
  import opened Bytes
  import M = MsgPack
  import IO = MsgPackIo

  const ACC_MAX: nat := 512

  function Join(parts: seq<bytes>): bytes {
    if parts == [] then [] else parts[0] + Join(parts[1..])
  }

  /** The second loop of poll_bridge: the messages cut off the front, and what is left. */
  function Drain(s: bytes): (r: (seq<bytes>, bytes))
    ensures |r.1| <= |s|
    decreases |s|
  {
    match M.Scan(s)
    case NeedMore => ([], s)
    case Error => Drain(s[1..])
    case Ok(n) => var r := Drain(s[n..]); ([s[..n]] + r.0, r.1)
  }

  lemma DrainStep(s: bytes, msgs: seq<bytes>)
    requires M.Scan(s).Ok?
    ensures msgs + Drain(s).0 == msgs + [s[..M.Scan(s).len]] + Drain(s[M.Scan(s).len..]).0
    ensures Drain(s).1 == Drain(s[M.Scan(s).len..]).1
  {
  }

  /** `acc` is rx_acc[0..rx_acc_len); `pending` is what the receive ring still holds. */
  datatype Link = Link(acc: bytes, pending: bytes)

  function Min(a: nat, b: nat): nat { if a <= b then a else b }

  function Poll(l: Link): (r: (Link, seq<bytes>))
    requires |l.acc| <= ACC_MAX
    ensures |r.0.acc| <= ACC_MAX
  {
    var take := Min(ACC_MAX - |l.acc|, |l.pending|);
    var d := Drain(l.acc + l.pending[..take]);
    (Link(d.1, l.pending[take..]), d.0)
  }

  /** A whole history: each chunk arrives, then the bridge is polled. */
  function Run(l: Link, chunks: seq<bytes>): (r: (Link, seq<bytes>))
    requires |l.acc| <= ACC_MAX
    decreases |chunks|
  {
    if chunks == [] then (l, [])
    else
      var p := Poll(l.(pending := l.pending + chunks[0]));
      var r := Run(p.0, chunks[1..]);
      (r.0, p.1 + r.1)
  }

  /** A stray octet that no value can begin with. */
  predicate Noise(w: bytes) { |w| == 1 && !M.TagEverValid(w[0]) }

  /** What may arrive: whole values, none longer than the accumulator, and stray octets between them. */
  predicate Sendable(ws: seq<bytes>) {
    forall w :: w in ws ==> (M.Complete(w) && |w| <= ACC_MAX) || Noise(w)
  }

  /** The values of a stream, without the noise between them. */
  function Spoken(ws: seq<bytes>): seq<bytes> {
    if ws == [] then [] else (if Noise(ws[0]) then [] else [ws[0]]) + Spoken(ws[1..])
  }

  lemma {:induction false} SpokenSplit(ws: seq<bytes>, k: nat)
    requires k <= |ws|
    ensures Spoken(ws) == Spoken(ws[..k]) + Spoken(ws[k..])
    decreases k
  {
    hide Noise;
    if k > 0 {
      SpokenSplit(ws[1..], k - 1);
      assert ws[1..][..k - 1] == ws[..k][1..] && ws[1..][k - 1..] == ws[k..];
      var first := if Noise(ws[0]) then [] else [ws[0]];
      Together(first, Spoken(ws[1..][..k - 1]), Spoken(ws[k..]));
    } else {
      assert ws[0..] == ws;
    }
  }

  lemma Together(a: seq<bytes>, b: seq<bytes>, c: seq<bytes>)
    ensures a + b + c == a + (b + c)
  {
  }

  /** A stream of values alone is all spoken. */
  lemma {:induction false} CleanStream(ws: seq<bytes>)
    requires forall w :: w in ws ==> M.Complete(w)
    ensures Spoken(ws) == ws
    decreases |ws|
  {
    hide M.Skip;
    if ws != [] {
      NotNoise(ws[0]);
      CleanStream(ws[1..]);
      assert [ws[0]] + ws[1..] == ws;
    }
  }

  lemma NotNoise(w: bytes)
    requires M.Complete(w)
    ensures !Noise(w)
  {
  }

  /** The bytes in `l` are those of `ws` from its front on, and `acc` is no whole value yet. */
  ghost predicate OnTrack(l: Link, ws: seq<bytes>) {
    && l.acc + l.pending <= Join(ws)
    && (ws == [] ==> l.acc == [])
    && (ws != [] ==> l.acc <= ws[0] && |l.acc| < |ws[0]|)
  }

  lemma DrainWhole(w: bytes, t: bytes)
    requires M.Complete(w) && |w| <= ACC_MAX
    ensures Drain(w + t) == ([w] + Drain(t).0, Drain(t).1)
  {
    M.ScanWhole(w, t);
    DropHead(w, t);
  }

  lemma DrainNoise(w: bytes, t: bytes)
    requires Noise(w)
    ensures Drain(w + t) == Drain(t)
  {
    hide M.Skip;
    DropHead(w, t);
    assert M.Scan(w + t) == M.Error;
  }

  /** One piece of a stream, value or noise, off the front. */
  lemma DrainPiece(w: bytes, t: bytes)
    requires (M.Complete(w) && |w| <= ACC_MAX) || Noise(w)
    ensures Drain(w + t) == ((if Noise(w) then [] else [w]) + Drain(t).0, Drain(t).1)
  {
    hide Drain, M.Skip;
    if Noise(w) {
      DrainNoise(w, t);
      assert [] + Drain(t).0 == Drain(t).0;
    } else {
      DrainWhole(w, t);
    }
  }

  /** Part of a piece, from its front, keeps the accumulator waiting. */
  lemma PartOfPiece(w: bytes, k: nat)
    requires ((M.Complete(w) && |w| <= ACC_MAX) || Noise(w)) && k < |w|
    ensures Drain(w[..k]) == ([], w[..k])
  {
    hide M.Skip;
    if !Noise(w) { M.ScanPrefix(w, k); }
  }

  /** Octets that no value can begin with are dropped, and what follows them is delivered as if they were not there. */
  lemma {:induction false} NoiseDropped(junk: bytes, s: bytes)
    requires forall b :: b in junk ==> !M.TagEverValid(b)
    ensures Drain(junk + s) == Drain(s)
    decreases |junk|
  {
    hide Drain;
    if junk == [] {
      assert junk + s == s;
    } else {
      assert junk + s == [junk[0]] + (junk[1..] + s);
      DrainNoise([junk[0]], junk[1..] + s);
      NoiseDropped(junk[1..], s);
    }
  }

  lemma TakeOneMore(ws: seq<bytes>, j: nat)
    requires j < |ws|
    ensures ws[..j + 1] == [ws[0]] + ws[1..][..j]
    ensures Join(ws[..j + 1]) == ws[0] + Join(ws[1..][..j])
  {
    assert ws[..j + 1][1..] == ws[1..][..j];
  }

  /** `s` is the first `k` values of `ws` and a proper prefix of the next. */
  ghost predicate CutAt(ws: seq<bytes>, s: bytes, k: nat, msgs: seq<bytes>, rest: bytes) {
    && k <= |ws| && msgs == Spoken(ws[..k]) && Join(ws[..k]) + rest == s
    && (k == |ws| ==> rest == [])
    && (k < |ws| ==> rest <= ws[k] && |rest| < |ws[k]|)
  }

  lemma CutCons(ws: seq<bytes>, t: bytes, j: nat, msgs: seq<bytes>, rest: bytes)
    requires ws != [] && CutAt(ws[1..], t, j, msgs, rest)
    ensures CutAt(ws, ws[0] + t, j + 1, (if Noise(ws[0]) then [] else [ws[0]]) + msgs, rest)
  {
    TakeOneMore(ws, j);
    assert Join(ws[..j + 1]) + rest == ws[0] + (Join(ws[1..][..j]) + rest);
  }

  lemma {:induction false} DrainStream(ws: seq<bytes>, s: bytes) returns (k: nat)
    requires Sendable(ws) && s <= Join(ws)
    ensures CutAt(ws, s, k, Drain(s).0, Drain(s).1)
    decreases |ws|
  {
    k := 0;
    if ws != [] {
      var w := ws[0];
      if |s| < |w| {
        assert s == w[..|s|] && w in ws;
        PartOfPiece(w, |s|);
      } else {
        var t := s[|w|..];
        assert s == w + t && t <= Join(ws[1..]);
        DrainPiece(w, t);
        var j := DrainStream(ws[1..], t);
        CutCons(ws, t, j, Drain(t).0, Drain(t).1);
        k := j + 1;
      }
    }
  }

  lemma {:induction false} JoinSplit(ws: seq<bytes>, k: nat)
    requires k <= |ws|
    ensures Join(ws) == Join(ws[..k]) + Join(ws[k..])
    decreases k
  {
    if k > 0 {
      JoinSplit(ws[1..], k - 1);
      assert ws[1..][..k - 1] == ws[..k][1..] && ws[1..][k - 1..] == ws[k..];
    } else {
      assert ws[0..] == ws;
    }
  }

  lemma Cancel(a: bytes, x: bytes, y: bytes)
    requires a + x <= a + y
    ensures x <= y
  {
    DropHead(a, x);
    DropHead(a, y);
    assert forall i :: 0 <= i < |x| ==> x[i] == (a + x)[|a| + i] && y[i] == (a + y)[|a| + i];
  }

  /** Out of `fed` bytes, exactly the first `k` values are out as `msgs` and the rest is in `l`. */
  ghost predicate Delivered(ws: seq<bytes>, fed: bytes, k: nat, l: Link, msgs: seq<bytes>) {
    && k <= |ws| && msgs == Spoken(ws[..k]) && OnTrack(l, ws[k..])
    && Join(ws[..k]) + (l.acc + l.pending) == fed
  }

  lemma CutDelivers(ws: seq<bytes>, s: bytes, k: nat, msgs: seq<bytes>, rest: bytes, p: bytes)
    requires CutAt(ws, s, k, msgs, rest) && s + p <= Join(ws)
    ensures Delivered(ws, s + p, k, Link(rest, p), msgs)
  {
    assert Join(ws[..k]) + (rest + p) == s + p;
    JoinSplit(ws, k);
    Cancel(Join(ws[..k]), rest + p, Join(ws[k..]));
  }

  lemma Remaining(ws: seq<bytes>, k: nat, l: Link, msgs: seq<bytes>, fed: bytes, later: bytes)
    requires Delivered(ws, fed, k, l, msgs) && fed + later <= Join(ws)
    ensures k <= |ws| && l.acc + l.pending + later <= Join(ws[k..]) && OnTrack(l, ws[k..])
  {
    hide Join, OnTrack;
    var x, j := l.acc + l.pending, Join(ws[..k]);
    JoinSplit(ws, k);
    Associate(j, x, later);
    Cancel(j, x + later, Join(ws[k..]));
  }

  lemma Associate(a: bytes, b: bytes, c: bytes)
    ensures (a + b) + c == a + (b + c)
  {
  }

  lemma SendableRest(ws: seq<bytes>, k: nat)
    requires Sendable(ws) && k <= |ws|
    ensures Sendable(ws[k..])
  {
    hide M.Skip;
  }

  lemma PollParts(l: Link) returns (s: bytes, p: bytes)
    requires |l.acc| <= ACC_MAX
    ensures s + p == l.acc + l.pending && Poll(l) == (Link(Drain(s).1, p), Drain(s).0)
  {
    var take := Min(ACC_MAX - |l.acc|, |l.pending|);
    s, p := l.acc + l.pending[..take], l.pending[take..];
  }

  /** One poll delivers the next messages of the stream and stays inside it. */
  lemma PollOnTrack(l: Link, ws: seq<bytes>) returns (k: nat)
    requires Sendable(ws) && |l.acc| <= ACC_MAX && OnTrack(l, ws)
    ensures Delivered(ws, l.acc + l.pending, k, Poll(l).0, Poll(l).1)
  {
    var s, p := PollParts(l);
    var msgs, rest := Drain(s).0, Drain(s).1;
    assert s <= Join(ws) by { assert s == (s + p)[..|s|]; }
    k := DrainStream(ws, s);
    CutDelivers(ws, s, k, msgs, rest, p);
  }

  /** Every poll with bytes pending takes some of them. */
  lemma PollProgress(l: Link, ws: seq<bytes>)
    requires Sendable(ws) && |l.acc| <= ACC_MAX && OnTrack(l, ws) && l.pending != []
    ensures |Poll(l).0.pending| < |l.pending|
  {
    assert ws == [] ==> |l.acc + l.pending| == 0;
  }

  lemma ChainDelivered(ws: seq<bytes>, a: nat, b: nat, fed: bytes, later: bytes,
                       l1: Link, m1: seq<bytes>, l2: Link, m2: seq<bytes>)
    requires Delivered(ws, fed, a, l1, m1)
    requires Delivered(ws[a..], l1.acc + l1.pending + later, b, l2, m2)
    ensures Delivered(ws, fed + later, a + b, l2, m1 + m2)
  {
    TwoRuns(ws, a, b);
    var x := l2.acc + l2.pending;
    assert Join(ws[..a + b]) + x == Join(ws[..a]) + (Join(ws[a..][..b]) + x);
    assert Join(ws[..a]) + (l1.acc + l1.pending + later) == Join(ws[..a]) + (l1.acc + l1.pending) + later;
  }

  lemma NothingYet(l: Link, ws: seq<bytes>)
    requires OnTrack(l, ws)
    ensures Delivered(ws, l.acc + l.pending, 0, l, [])
  {
    assert ws[0..] == ws;
  }

  lemma StillOnTrack(l: Link, ws: seq<bytes>, chunk: bytes, later: bytes)
    requires OnTrack(l, ws) && l.acc + (l.pending + chunk) + later <= Join(ws)
    ensures OnTrack(l.(pending := l.pending + chunk), ws)
  {
    var fed := l.acc + (l.pending + chunk);
    assert fed == (fed + later)[..|fed|];
  }

  /**
   Segmentation does not matter. However the bytes of whole values, with or without stray octets
   between them, are cut into chunks, the decoder is handed exactly those values in order, nothing is
   lost or duplicated, and the accumulator only ever holds a proper prefix of the next value.
   */
  lemma {:induction false} Segmentation(l: Link, ws: seq<bytes>, chunks: seq<bytes>) returns (k: nat)
    requires Sendable(ws) && |l.acc| <= ACC_MAX
    requires OnTrack(l, ws) && l.acc + l.pending + Join(chunks) <= Join(ws)
    ensures Delivered(ws, l.acc + l.pending + Join(chunks), k, Run(l, chunks).0, Run(l, chunks).1)
    decreases |chunks|
  {
    hide M.Skip, Poll, Delivered, OnTrack, Join, Run, Sendable;
    k := 0;
    RunStep(l, chunks);
    if chunks == [] {
      NothingYet(l, ws);
      assert l.acc + l.pending + [] == l.acc + l.pending;
    } else {
      var m, later := l.(pending := l.pending + chunks[0]), Join(chunks[1..]);
      var fed := m.acc + m.pending;
      assert l.acc + l.pending + (chunks[0] + later) == fed + later;
      StillOnTrack(l, ws, chunks[0], later);
      var a := PollOnTrack(m, ws);
      var l1 := Poll(m).0;
      Remaining(ws, a, l1, Poll(m).1, fed, later);
      SendableRest(ws, a);
      var b := Segmentation(l1, ws[a..], chunks[1..]);
      k := a + b;
      ChainDelivered(ws, a, b, fed, later, l1, Poll(m).1, Run(l1, chunks[1..]).0, Run(l1, chunks[1..]).1);
    }
  }

  /** The first chunk of a history and the rest of it. */
  lemma RunStep(l: Link, chunks: seq<bytes>)
    requires |l.acc| <= ACC_MAX
    ensures chunks == [] ==> Run(l, chunks) == (l, []) && Join(chunks) == []
    ensures chunks != [] ==>
      var p := Poll(l.(pending := l.pending + chunks[0])); var r := Run(p.0, chunks[1..]);
      Run(l, chunks) == (r.0, p.1 + r.1) && Join(chunks) == chunks[0] + Join(chunks[1..])
  {
    hide Poll;
  }

  lemma TwoRuns(ws: seq<bytes>, a: nat, b: nat)
    requires a + b <= |ws|
    ensures ws[..a + b] == ws[..a] + ws[a..][..b] && ws[a + b..] == ws[a..][b..]
    ensures Join(ws[..a + b]) == Join(ws[..a]) + Join(ws[a..][..b])
    ensures Spoken(ws[..a + b]) == Spoken(ws[..a]) + Spoken(ws[a..][..b])
  {
    SpokenSplit(ws[..a + b], a);
    JoinSplit(ws[..a + b], a);
    assert ws[..a + b][..a] == ws[..a] && ws[..a + b][a..] == ws[a..][..b];
  }

  function Silence(n: nat): (chunks: seq<bytes>)
    ensures |chunks| == n
  {
    seq(n, i => [])
  }

  lemma {:induction false} RunAppend(l: Link, a: seq<bytes>, b: seq<bytes>)
    requires |l.acc| <= ACC_MAX
    ensures |Run(l, a).0.acc| <= ACC_MAX
    ensures Run(l, a + b) == (Run(Run(l, a).0, b).0, Run(l, a).1 + Run(Run(l, a).0, b).1)
    decreases |a|
  {
    hide Poll;
    if a == [] {
      assert a + b == b && [] + Run(l, b).1 == Run(l, b).1;
    } else {
      assert (a + b)[1..] == a[1..] + b;
      var p := Poll(l.(pending := l.pending + a[0]));
      RunAppend(p.0, a[1..], b);
      assert Run(l, a) == (Run(p.0, a[1..]).0, p.1 + Run(p.0, a[1..]).1);
      assert (a + b)[0] == a[0];
      var x, y := Run(p.0, a[1..]).1, Run(Run(p.0, a[1..]).0, b).1;
      assert Run(l, a + b) == (Run(p.0, a[1..] + b).0, p.1 + (x + y));
      assert p.1 + (x + y) == p.1 + x + y;
    }
  }

  /** What one poll leaves of the stream, with less pending. */
  lemma PollLeaves(l: Link, ws: seq<bytes>) returns (k: nat)
    requires Sendable(ws) && |l.acc| <= ACC_MAX && OnTrack(l, ws)
    ensures k <= |ws| && Sendable(ws[k..]) && OnTrack(Poll(l).0, ws[k..])
    ensures |Poll(l).0.pending| < |l.pending| || Poll(l).0.pending == l.pending == []
  {
    hide Drain, Sendable;
    k := PollOnTrack(l, ws);
    SendableRest(ws, k);
    if l.pending != [] { PollProgress(l, ws); }
  }

  /** Each poll takes at least one pending byte, so the ring empties. */
  lemma {:induction false} SilenceEmpties(l: Link, ws: seq<bytes>, n: nat)
    requires Sendable(ws) && |l.acc| <= ACC_MAX && OnTrack(l, ws) && |l.pending| <= n
    ensures Run(l, Silence(n)).0.pending == []
    decreases n
  {
    hide Poll, Run, OnTrack, Sendable;
    RunStep(l, Silence(n));
    if n > 0 {
      assert l.(pending := l.pending + Silence(n)[0]) == l;
      assert Silence(n)[1..] == Silence(n - 1);
      var k := PollLeaves(l, ws);
      SilenceEmpties(Poll(l).0, ws[k..], n - 1);
    }
  }

  /** Nothing arrives any more before the last `n` polls. */
  predicate Quiet(chunks: seq<bytes>, n: nat) {
    n <= |chunks| && chunks[|chunks| - n..] == Silence(n)
  }

  /** Once the whole stream has arrived, polling on delivers all of it and leaves nothing. */
  lemma Delivery(ws: seq<bytes>, chunks: seq<bytes>, n: nat)
    requires Sendable(ws) && Join(chunks) == Join(ws) && n >= |Join(ws)| && Quiet(chunks, n)
    ensures Run(Link([], []), chunks) == (Link([], []), Spoken(ws))
  {
    hide M.Skip, Poll, Join, Run, Sendable, Delivered, Silence;
    var l0, busy := Link([], []), chunks[..|chunks| - n];
    assert chunks == busy + Silence(n);
    JoinAppend(busy, Silence(n));
    JoinSilence(n);
    AtRest(ws);
    var k := Segmentation(l0, ws, chunks);
    RunAppend(l0, busy, Silence(n));
    assert l0.acc + l0.pending + Join(chunks) == Join(ws) && l0.acc + l0.pending + Join(busy) == Join(ws);
    var j := Segmentation(l0, ws, busy);
    Inside(ws, j, Run(l0, busy).0, Run(l0, busy).1);
    SendableRest(ws, j);
    SilenceEmpties(Run(l0, busy).0, ws[j..], n);
    AllOut(ws, k, Run(l0, chunks).0, Run(l0, chunks).1);
  }

  lemma AtRest(ws: seq<bytes>)
    requires Sendable(ws)
    ensures OnTrack(Link([], []), ws)
  {
    hide M.Skip;
    if ws != [] { assert ws[0] in ws; }
  }

  lemma Inside(ws: seq<bytes>, j: nat, l: Link, msgs: seq<bytes>)
    requires Delivered(ws, Join(ws), j, l, msgs)
    ensures j <= |ws| && OnTrack(l, ws[j..]) && |l.pending| <= |Join(ws)|
  {
    hide OnTrack, Join;
  }

  lemma JoinLonger(ws: seq<bytes>, k: nat)
    ensures k < |ws| ==> |Join(ws[k..])| >= |ws[k]|
  {
  }

  /** With everything fed and nothing pending, everything is out. */
  lemma AllOut(ws: seq<bytes>, k: nat, l: Link, msgs: seq<bytes>)
    requires Delivered(ws, Join(ws), k, l, msgs) && l.pending == []
    ensures l == Link([], []) && msgs == Spoken(ws)
  {
    JoinSplit(ws, k);
    Cancel(Join(ws[..k]), Join(ws[k..]), l.acc + l.pending);
    assert |Join(ws[k..])| <= |l.acc|;
    JoinLonger(ws, k);
    assert k == |ws|;
    assert ws[..k] == ws;
  }

  lemma {:induction false} JoinAppend(a: seq<bytes>, b: seq<bytes>)
    ensures Join(a + b) == Join(a) + Join(b)
    decreases |a|
  {
    JoinSplit(a + b, |a|);
    assert (a + b)[..|a|] == a && (a + b)[|a|..] == b;
  }

  lemma {:induction false} JoinSilence(n: nat)
    ensures Join(Silence(n)) == []
  {
    if n > 0 {
      assert Silence(n)[1..] == Silence(n - 1);
      JoinSilence(n - 1);
    }
  }

  // ------------------------------------------------------------------- the code

  class Bridge {
    const acc: array<byte>
    var len: nat
    var pending: bytes

    ghost predicate Valid()
      reads this
    {
      acc.Length == ACC_MAX && len <= ACC_MAX
    }

    ghost function State(): Link
      requires Valid()
      reads this, acc
    {
      Link(acc[..len], pending)
    }

    constructor ()
      ensures Valid() && State() == Link([], []) && fresh(acc)
    {
      acc := new byte[ACC_MAX](_ => 0);
      len, pending := 0, [];
    }

    /** The receive interrupt. */
    method Arrive(chunk: bytes)
      requires Valid()
      modifies this`pending
      ensures Valid() && State() == old(State()).(pending := old(pending) + chunk)
    {
      pending := pending + chunk;
    }

    /** hw_rpc_read into the free end of the accumulator. */
    method Read() returns (got: nat)
      requires Valid()
      modifies this`pending, acc
      ensures Valid() && got == Min(ACC_MAX - len, |old(pending)|)
      ensures pending == old(pending)[got..]
      ensures acc[..len] == old(acc[..len]) && acc[len..len + got] == old(pending)[..got]
    {
      got := Min(acc.Length - len, |pending|);
      forall i | 0 <= i < got {
        acc[len + i] := pending[i];
      }
      pending := pending[got..];
    }

    /** memmove the accumulator down over its first `n` bytes. */
    method DropFront(n: nat)
      requires Valid() && n <= len
      modifies this`len, acc
      ensures Valid() && acc[..len] == old(acc[n..len])
    {
      forall i | 0 <= i < len - n {
        acc[i] := acc[i + n];
      }
      len := len - n;
    }

    /** The first loop of poll_bridge: read until the ring is dry or the accumulator full. */
    method Fill()
      requires Valid()
      modifies this, acc
      ensures Valid() && var take := Min(ACC_MAX - old(len), |old(pending)|);
        acc[..len] == old(acc[..len]) + old(pending)[..take] && pending == old(pending)[take..]
    {
      ghost var take := Min(ACC_MAX - len, |pending|);
      ghost var filled := acc[..len] + pending[..take];
      while true
        invariant Valid() && len >= old(len)
        invariant acc[..len] + pending == old(State()).acc + old(pending)
        invariant len == old(len) || len == old(len) + take
        invariant len == old(len) ==> acc[..len] == old(acc[..len]) && pending == old(pending)
        invariant len == old(len) + take ==> acc[..len] == filled && pending == old(pending)[take..]
        decreases ACC_MAX - len
      {
        var got := Read();
        len := len + got;
        if got == 0 {
          break;
        }
      }
    }

    /** poll_bridge. */
    method PollBridge() returns (msgs: seq<bytes>)
      requires Valid()
      modifies this, acc
      ensures Valid() && (State(), msgs) == Poll(old(State()))
    {
      hide M.Scan;
      ghost var take := Min(ACC_MAX - len, |pending|);
      ghost var filled := acc[..len] + pending[..take];
      Fill();
      msgs := [];
      assert msgs + Drain(filled).0 == Drain(filled).0;
      while true
        invariant Valid() && pending == old(pending)[take..]
        invariant Drain(filled).0 == msgs + Drain(acc[..len]).0 && Drain(filled).1 == Drain(acc[..len]).1
        decreases len
      {
        var r := IO.ScanValue(acc[..len]);
        if r == M.NeedMore {
          assert msgs + Drain(acc[..len]).0 == msgs;
          break;
        }
        if r == M.Error {
          assert acc[..len][1..] == acc[1..len];
          DropFront(1);
          continue;
        }
        DrainStep(acc[..len], msgs);
        msgs := msgs + [acc[..len][..r.len]];
        assert acc[..len][r.len..] == acc[r.len..len];
        DropFront(r.len);
      }
    }
  }

  // --------------------------------------------- when a bad byte does wedge the channel

  function Zeros(n: nat): bytes { seq(n, i => 0) }

  /**
   Zero bytes are the cheapest continuation: if any continuation of `s` completes a value,
   padding with zeros completes one that is no longer.
   */
  lemma {:induction false} ZerosComplete(s: bytes, w: bytes, z: nat)
    requires s <= w && M.Skip(w).Some? && |s| + z >= M.Skip(w).value
    ensures M.Skip(s + Zeros(z)).Some? && M.Skip(s + Zeros(z)).value <= M.Skip(w).value
    decreases |w|, 0
  {
    var n, p := M.Skip(w).value, s + Zeros(z);
    if n <= |s| {
      assert w == s + w[|s|..];
      M.SkipRestricts(s, w[|s|..]);
      M.SkipExtends(s, Zeros(z));
    } else if s == [] {
      assert p[0] == 0;
      assert M.GetInt(p).Got?;
    } else {
      ZeroHead(s, w, z);
      if M.HeadOf(w).Nest? {
        var u, c := M.HeadOf(w).hdr, M.HeadOf(p).count;
        M.WordSizes();
        var a := Min(u, |s|);
        assert s[a..] <= w[u..];
        var z' := |p| - u - |s[a..]|;
        assert p[u..] == s[a..] + Zeros(z');
        FewerMembers(w[u..], c, M.HeadOf(w).count);
        ZerosCompleteMany(s[a..], w[u..], z', c);
      }
    }
  }

  /** The header seen through the zero padding is of the same kind and asks for no more. */
  lemma ZeroHead(s: bytes, w: bytes, z: nat)
    requires s <= w && s != [] && M.Skip(w).Some? && |s| + z >= M.Skip(w).value
    ensures M.HeadOf(w).Leaf? ==> M.HeadOf(s + Zeros(z)).Leaf? && M.HeadOf(s + Zeros(z)).len <= M.HeadOf(w).len
    ensures M.HeadOf(w).Nest? ==> (M.HeadOf(s + Zeros(z)).Nest?
      && M.HeadOf(s + Zeros(z)).hdr == M.HeadOf(w).hdr && M.HeadOf(s + Zeros(z)).count <= M.HeadOf(w).count)
  {
    hide GetBE;
    var p := s + Zeros(z);
    assert p[0] == w[0];
    if M.IsStrTag(w[0]) || M.IsBinTag(w[0]) {
      Smaller16(p, w);
      assert M.HeadOf(p).Leaf?;
    } else if M.IsIntTag(w[0]) {
      assert M.HeadOf(p).Leaf?;
    } else if M.IsArrayTag(w[0]) || M.IsMapTag(w[0]) {
      Smaller16(p, w);
      assert M.HeadOf(p).Nest?;
    }
  }

  lemma Smaller16(p: bytes, w: bytes)
    requires forall i :: 0 < i < |p| && i < |w| ==> p[i] <= w[i]
    ensures |p| >= 3 && |w| >= 3 ==> GetBE(p[1..3]) <= GetBE(w[1..3])
  {
    if |p| >= 3 && |w| >= 3 {
      GetBE2(p[1..3]);
      GetBE2(w[1..3]);
    }
  }

  lemma GetBE2(b: bytes)
    requires |b| == 2
    ensures GetBE(b) == 256 * b[0] as int + b[1] as int
  {
    assert b[..1][..0] == [] && GetBE(b[..1]) == b[0];
  }

  lemma {:induction false} FewerMembers(w: bytes, c: nat, n: nat)
    requires c <= n && M.SkipMany(w, n).Some?
    ensures M.SkipMany(w, c).Some? && M.SkipMany(w, c).value <= M.SkipMany(w, n).value
    decreases c
  {
    if c > 0 { FewerMembers(w[M.Skip(w).value..], c - 1, n - 1); }
  }

  lemma {:induction false} ZerosCompleteMany(s: bytes, w: bytes, z: nat, n: nat)
    requires s <= w && M.SkipMany(w, n).Some? && |s| + z >= M.SkipMany(w, n).value
    ensures M.SkipMany(s + Zeros(z), n).Some? && M.SkipMany(s + Zeros(z), n).value <= M.SkipMany(w, n).value
    decreases |w|, 1, n
  {
    hide M.Skip;
    if n > 0 {
      ZerosComplete(s, w, z);
      SameFirst(s, w, z);
      var a, b := M.Skip(w).value, M.Skip(s + Zeros(z)).value;
      var s' := if a <= |s| then s[a..] else [];
      var z' := |s| + z - b - |s'|;
      assert s' <= w[a..];
      ZerosCompleteMany(s', w[a..], z', n - 1);
      DropPadded(s, z, b, s', z');
    }
  }

  lemma DropPadded(s: bytes, z: nat, b: nat, s': bytes, z': nat)
    requires b <= |s| + z && |s'| + z' == |s| + z - b
    requires if b <= |s| then s' == s[b..] else s' == []
    ensures (s + Zeros(z))[b..] == s' + Zeros(z')
  {
  }

  /** If the first value ends inside `s` the padding does not touch it; else it ends in the padding. */
  lemma SameFirst(s: bytes, w: bytes, z: nat)
    requires s <= w && M.Skip(w).Some? && M.Skip(s + Zeros(z)).Some?
    ensures M.Skip(w).value <= |s| ==> M.Skip(s + Zeros(z)) == M.Skip(w)
    ensures M.Skip(w).value > |s| ==> M.Skip(s + Zeros(z)).value > |s|
  {
    assert w == s + w[|s|..];
    if M.Skip(w).value <= |s| {
      M.SkipRestricts(s, w[|s|..]);
      M.SkipExtends(s, Zeros(z));
    } else if M.Skip(s + Zeros(z)).value <= |s| {
      M.SkipRestricts(s, Zeros(z));
      M.SkipExtends(s, w[|s|..]);
    }
  }

  /** What a value that begins `s` is for the scanner. */
  lemma ScanOf(s: bytes)
    requires 0 < |s| <= ACC_MAX
    ensures M.Scan(s) == if !M.TagEverValid(s[0]) then M.Error
                         else if M.Skip(s).Some? then M.Ok(M.Skip(s).value) else M.NeedMore
  {
    hide M.Skip;
  }

  lemma OneByteValue()
    ensures M.Scan([0]).Ok?
  {
    assert M.HeadOf([0]) == M.Leaf(1);
  }

  lemma {:induction false} SpokenHasWitness(l: Link, chunks: seq<bytes>) returns (w: bytes)
    requires |l.acc| <= ACC_MAX && M.Scan(l.acc).NeedMore? && Run(l, chunks).1 != []
    ensures l.acc <= w && |w| <= ACC_MAX && M.Scan(w).Ok?
    decreases |chunks|
  {
    hide M.Scan, Run;
    RunStep(l, chunks);
    var m := l.(pending := l.pending + chunks[0]);
    w := m.acc + m.pending[..Min(ACC_MAX - |m.acc|, |m.pending|)];
    match M.Scan(w)
    case Ok(_) =>
    case NeedMore =>
      w := SpokenHasWitness(Poll(m).0, chunks[1..]);
    case Error =>
      ErrorAtFront(l.acc, w);
      w := [0];
      OneByteValue();
  }

  lemma ErrorAtFront(acc: bytes, w: bytes)
    requires acc <= w && |w| <= ACC_MAX && M.Scan(acc).NeedMore? && M.Scan(w).Error?
    ensures acc == []
  {
    hide M.Skip;
    if acc != [] {
      ScanOf(acc);
      ScanOf(w);
    }
  }

  /** If anything can follow that completes a value, zeros up to the accumulator's size do. */
  lemma ZerosAnswer(acc: bytes, w: bytes)
    requires |acc| <= ACC_MAX && M.Scan(acc).NeedMore? && acc <= w && |w| <= ACC_MAX && M.Scan(w).Ok?
    ensures M.Scan(acc + Zeros(ACC_MAX - |acc|)).Ok?
  {
    hide M.Skip, M.HeadOf, M.Scan;
    var s := acc + Zeros(ACC_MAX - |acc|);
    ScanOf(w);
    ZerosComplete(acc, w, ACC_MAX - |acc|);
    ScanOf(s);
    if acc == [] { ZeroIsValid(); } else { assert s[0] == w[0]; }
  }

  lemma ZeroIsValid()
    ensures M.TagEverValid(0)
  {
  }

  /** And if those zeros complete a value, sending them does deliver one. */
  lemma ZerosDeliver(acc: bytes)
    requires |acc| <= ACC_MAX && M.Scan(acc + Zeros(ACC_MAX - |acc|)).Ok?
    ensures Run(Link(acc, []), [Zeros(ACC_MAX - |acc|)]).1 != []
  {
    hide M.Scan, Poll;
    var l, z := Link(acc, []), Zeros(ACC_MAX - |acc|);
    RunStep(l, [z]);
    assert [] + z == z;
    FullPoll(acc, z);
  }

  lemma FullPoll(acc: bytes, z: bytes)
    requires |acc| + |z| == ACC_MAX && M.Scan(acc + z).Ok?
    ensures Poll(Link(acc, z)).1 != []
  {
    hide M.Scan;
    assert z[..|z|] == z;
  }

  /**
   A stuck accumulator, exactly: once the bytes in it ask for more, some future traffic gets a
   message through if and only if padding them with zeros to the accumulator's size scans OK.
   */
  lemma WedgedExactly(acc: bytes)
    requires |acc| <= ACC_MAX && M.Scan(acc).NeedMore?
    ensures (exists chunks :: Run(Link(acc, []), chunks).1 != [])
       <==> M.Scan(acc + Zeros(ACC_MAX - |acc|)).Ok?
  {
    hide M.Scan, Run, Zeros;
    if chunks :| Run(Link(acc, []), chunks).1 != [] {
      var w := SpokenHasWitness(Link(acc, []), chunks);
      ZerosAnswer(acc, w);
    }
    if M.Scan(acc + Zeros(ACC_MAX - |acc|)).Ok? { ZerosDeliver(acc); }
  }

  /** The resync comment fails: one bad byte inside an array silences the bridge for good. */
  lemma NestedBadByteWedges(chunks: seq<bytes>)
    ensures Poll(Link([], [0x91, 0xc1])) == (Link([0x91, 0xc1], []), [])
    ensures Run(Link([0x91, 0xc1], []), chunks).1 == []
  {
    var acc := [0x91, 0xc1];
    assert forall t: bytes :: M.Skip(acc + t).None? by {
      forall t: bytes ensures M.Skip(acc + t).None? {
        var x := (acc + t)[1..];
        assert x[0] == 0xc1 && M.HeadOf(x).Bad? && M.Skip(x).None?;
        assert M.SkipMany(x, 1).None?;
        assert M.HeadOf(acc + t) == M.Nest(1, 1);
      }
    }
    assert acc + [] == acc;
    assert M.Skip(acc).None?;
    assert [] + [0x91, 0xc1][..2] == acc;
    WedgedExactly(acc);
  }
}
