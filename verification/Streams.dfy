/**
 * Streams: rounds of gathering and answering over one stream per party.
 *
 * Every party has a script: the messages it will send, one a round. A client sends, waits for the
 * king's answer and goes on; the king takes one message from every stream and sends its reply to all.
 * A round has no name on the wire, so the king's k-th gathering holds the k-th message of every
 * stream, and a client's k-th answer is the reply to it.
 */
module Streams {
  import opened Results

  /** What a client has sent and read, with the messages and answers that are on their way. */
  datatype Client<M, A> = Client(pos: nat, waiting: bool, up: seq<M>, slot: Option<M>, down: seq<A>, got: seq<A>)

  /** The clients, of which entry 0 stands for the king and is not used, and the completed gatherings. */
  datatype Net<M, A> = Net(clients: seq<Client<M, A>>, log: seq<seq<M>>)

  datatype Action = Send(id: nat) | Take(id: nat) | Close | Read(id: nat)

  type Scripts<M> = s: seq<seq<M>> | |s| >= 1 witness [[]]

  /** The king's reply to its k-th gathering. */
  type Reply<!M, !A> = (nat, seq<M>) -> A

  ghost function Init<M, A>(n: nat): Net<M, A> {
    Net(seq(n, _ => Client(0, false, [], None, [], [])), [])
  }

  ghost predicate Enabled<M, A>(scripts: Scripts<M>, s: Net<M, A>, a: Action) {
    && |s.clients| == |scripts|
    && match a
       case Send(i) => 1 <= i < |scripts| && !s.clients[i].waiting && s.clients[i].pos < |scripts[i]|
       case Take(i) => 1 <= i < |scripts| && s.clients[i].slot == None && s.clients[i].up != [] && |s.log| < |scripts[0]|
       case Close => |s.log| < |scripts[0]| && forall i :: 1 <= i < |scripts| ==> s.clients[i].slot.Some?
       case Read(i) => 1 <= i < |scripts| && s.clients[i].waiting && s.clients[i].down != []
  }

  ghost function Gathered<M, A>(scripts: Scripts<M>, s: Net<M, A>): (g: seq<M>)
    requires Enabled(scripts, s, Close)
    ensures |g| == |scripts|
  {
    seq(|scripts|, i requires 0 <= i < |scripts| => if i == 0 then scripts[0][|s.log|] else s.clients[i].slot.value)
  }

  ghost function Closed<M, A>(scripts: Scripts<M>, reply: Reply<M, A>, s: Net<M, A>): Net<M, A>
    requires Enabled(scripts, s, Close)
  {
    var g := Gathered(scripts, s);
    var answer := reply(|s.log|, g);
    Net(seq(|scripts|, i requires 0 <= i < |scripts| =>
          s.clients[i].(slot := None, down := s.clients[i].down + [answer])),
        s.log + [g])
  }

  ghost function Apply<M, A>(scripts: Scripts<M>, reply: Reply<M, A>, s: Net<M, A>, a: Action): Net<M, A>
    requires Enabled(scripts, s, a)
  {
    match a
    case Send(i) =>
      var c := s.clients[i];
      s.(clients := s.clients[i := c.(pos := c.pos + 1, waiting := true, up := c.up + [scripts[i][c.pos]])])
    case Take(i) =>
      var c := s.clients[i];
      s.(clients := s.clients[i := c.(slot := Some(c.up[0]), up := c.up[1..])])
    case Close => Closed(scripts, reply, s)
    case Read(i) =>
      var c := s.clients[i];
      s.(clients := s.clients[i := c.(waiting := false, got := c.got + [c.down[0]], down := c.down[1..])])
  }

  ghost predicate Step<M, A>(scripts: Scripts<M>, reply: Reply<M, A>, s: Net<M, A>, t: Net<M, A>) {
    exists a :: Enabled(scripts, s, a) && t == Apply(scripts, reply, s, a)
  }

  ghost predicate CanStep<M, A>(scripts: Scripts<M>, s: Net<M, A>) {
    exists a :: Enabled(scripts, s, a)
  }

  /** A run: any interleaving of the steps. */
  ghost predicate IsRun<M, A>(scripts: Scripts<M>, reply: Reply<M, A>, run: seq<Net<M, A>>) {
    run != [] && run[0] == Init(|scripts|) && forall k :: 0 < k < |run| ==> Step(scripts, reply, run[k - 1], run[k])
  }

  function Last<T>(run: seq<T>): T
    requires run != []
  {
    run[|run| - 1]
  }

  // ----- what every step keeps

  ghost function GatheredFrom<M>(log: seq<seq<M>>, i: nat): (r: seq<M>)
    requires forall k :: 0 <= k < |log| ==> i < |log[k]|
    ensures |r| == |log|
  {
    seq(|log|, k requires 0 <= k < |log| => log[k][i])
  }

  /** The replies to all gatherings. */
  ghost function Replies<M, A>(reply: Reply<M, A>, log: seq<seq<M>>): (r: seq<A>)
    ensures |r| == |log|
  {
    seq(|log|, k requires 0 <= k < |log| => reply(k, log[k]))
  }

  ghost function Held<M>(slot: Option<M>): seq<M> {
    match slot
    case None => []
    case Some(m) => [m]
  }

  /**
   * What a client has sent was gathered, is held by the king, or is on its way, in this order; what it
   * has read and what is on its way back are the king's replies, in this order.
   */
  ghost predicate ClientOk<M, A>(script: seq<M>, c: Client<M, A>, column: seq<M>, replies: seq<A>) {
    && c.pos <= |script| && script[..c.pos] == column + Held(c.slot) + c.up
    && c.got + c.down == replies
    && c.pos + |c.down| == |column| + (if c.waiting then 1 else 0)
  }

  ghost predicate LogOk<M, A>(scripts: Scripts<M>, s: Net<M, A>) {
    && |s.clients| == |scripts| && |s.log| <= |scripts[0]|
    && (forall k :: 0 <= k < |s.log| ==> |s.log[k]| == |scripts|)
    && (forall k :: 0 <= k < |s.log| ==> s.log[k][0] == scripts[0][k])
  }

  ghost predicate Inv<M, A>(scripts: Scripts<M>, reply: Reply<M, A>, s: Net<M, A>) {
    && LogOk(scripts, s)
    && forall i :: 1 <= i < |scripts| ==>
         ClientOk(scripts[i], s.clients[i], GatheredFrom(s.log, i), Replies(reply, s.log))
  }

  lemma CloseKeeps<M, A>(scripts: Scripts<M>, reply: Reply<M, A>, s: Net<M, A>)
    requires Inv(scripts, reply, s) && Enabled(scripts, s, Close)
    ensures Inv(scripts, reply, Closed(scripts, reply, s))
  {
    var g, t := Gathered(scripts, s), Closed(scripts, reply, s);
    var answer := reply(|s.log|, g);
    assert Replies(reply, t.log) == Replies(reply, s.log) + [answer];
    forall i | 1 <= i < |scripts|
      ensures ClientOk(scripts[i], t.clients[i], GatheredFrom(t.log, i), Replies(reply, t.log))
    {
      var c := s.clients[i];
      assert ClientOk(scripts[i], c, GatheredFrom(s.log, i), Replies(reply, s.log));
      assert GatheredFrom(t.log, i) == GatheredFrom(s.log, i) + [g[i]];
      assert c.got + (c.down + [answer]) == c.got + c.down + [answer];
    }
  }

  lemma StepKeeps<M, A>(scripts: Scripts<M>, reply: Reply<M, A>, s: Net<M, A>, a: Action)
    requires Inv(scripts, reply, s) && Enabled(scripts, s, a)
    ensures Inv(scripts, reply, Apply(scripts, reply, s, a))
  {
    if a == Close {
      CloseKeeps(scripts, reply, s);
    } else {
      var c := s.clients[a.id];
      assert ClientOk(scripts[a.id], c, GatheredFrom(s.log, a.id), Replies(reply, s.log));
      match a
      case Send(i) => assert scripts[i][..c.pos + 1] == scripts[i][..c.pos] + [scripts[i][c.pos]];
      case Take(i) => assert c.up == [c.up[0]] + c.up[1..];
      case Read(i) => assert c.got + c.down == c.got + [c.down[0]] + c.down[1..];
    }
  }

  lemma StepInv<M, A>(scripts: Scripts<M>, reply: Reply<M, A>, s: Net<M, A>, t: Net<M, A>)
    requires Inv(scripts, reply, s) && Step(scripts, reply, s, t)
    ensures Inv(scripts, reply, t)
  {
    hide Inv, Apply, Enabled;
    var a :| Enabled(scripts, s, a) && t == Apply(scripts, reply, s, a);
    StepKeeps(scripts, reply, s, a);
  }

  lemma {:induction false} AlwaysInv<M, A>(scripts: Scripts<M>, reply: Reply<M, A>, run: seq<Net<M, A>>, k: nat)
    requires IsRun(scripts, reply, run) && k < |run|
    ensures Inv(scripts, reply, run[k])
  {
    hide Inv, Apply, Enabled;
    if k == 0 {
      InitInv(scripts, reply);
    } else {
      AlwaysInv(scripts, reply, run, k - 1);
      StepInv(scripts, reply, run[k - 1], run[k]);
    }
  }

  lemma InitInv<M, A>(scripts: Scripts<M>, reply: Reply<M, A>)
    ensures Inv(scripts, reply, Init(|scripts|))
  {
    var s: Net<M, A> := Init(|scripts|);
    forall i | 1 <= i < |scripts|
      ensures ClientOk(scripts[i], s.clients[i], GatheredFrom(s.log, i), Replies(reply, s.log))
    {
      assert scripts[i][..0] == [];
    }
  }

  // ----- what the king and the clients get

  /** Under every interleaving the king's k-th gathering holds the k-th message of every party. */
  lemma GatheringsAligned<M, A>(scripts: Scripts<M>, reply: Reply<M, A>, run: seq<Net<M, A>>, k: nat, i: nat)
    requires IsRun(scripts, reply, run) && i < |scripts|
    ensures var log := Last(run).log;
      k < |log| ==> |log[k]| == |scripts| && k < |scripts[i]| && log[k][i] == scripts[i][k]
  {
    var s := Last(run);
    AlwaysInv(scripts, reply, run, |run| - 1);
    if i > 0 && k < |s.log| {
      var c, column := s.clients[i], GatheredFrom(s.log, i);
      assert ClientOk(scripts[i], c, column, Replies(reply, s.log));
      assert scripts[i][..c.pos][k] == column[k];
    }
  }

  /** Under every interleaving a client's k-th answer is the reply to the king's k-th gathering. */
  lemma AnswersPaired<M, A>(scripts: Scripts<M>, reply: Reply<M, A>, run: seq<Net<M, A>>, k: nat, i: nat)
    requires IsRun(scripts, reply, run) && 1 <= i < |scripts|
    ensures var s := Last(run);
      && |s.clients| == |scripts|
      && (k < |s.clients[i].got| ==> k < |s.log| && s.clients[i].got[k] == reply(k, s.log[k]))
  {
    var s := Last(run);
    AlwaysInv(scripts, reply, run, |run| - 1);
    var c, replies := s.clients[i], Replies(reply, s.log);
    assert ClientOk(scripts[i], c, GatheredFrom(s.log, i), replies);
    if k < |c.got| {
      assert (c.got + c.down)[k] == c.got[k];
    }
  }

  /** Nothing gets stuck before some script has ended. */
  lemma Progress<M, A>(scripts: Scripts<M>, reply: Reply<M, A>, run: seq<Net<M, A>>)
    requires IsRun(scripts, reply, run) && forall i :: 0 <= i < |scripts| ==> |Last(run).log| < |scripts[i]|
    ensures CanStep(scripts, Last(run))
  {
    var s := Last(run);
    AlwaysInv(scripts, reply, run, |run| - 1);
    if i :| 1 <= i < |scripts| && s.clients[i].slot == None {
      var c := s.clients[i];
      assert ClientOk(scripts[i], c, GatheredFrom(s.log, i), Replies(reply, s.log));
      assert |scripts[i][..c.pos]| == c.pos;
      if c.up != [] {
        assert Enabled(scripts, s, Take(i));
      } else if c.waiting {
        assert Enabled(scripts, s, Read(i));
      } else {
        assert Enabled(scripts, s, Send(i));
      }
    } else {
      assert Enabled(scripts, s, Close);
    }
  }

  /** When nothing can happen any more every client has read every reply. */
  lemma AllRead<M, A>(scripts: Scripts<M>, reply: Reply<M, A>, run: seq<Net<M, A>>, i: nat)
    requires IsRun(scripts, reply, run) && 1 <= i < |scripts| && !CanStep(scripts, Last(run))
    ensures |Last(run).clients| == |scripts| && Last(run).clients[i].got == Replies(reply, Last(run).log)
  {
    var s := Last(run);
    AlwaysInv(scripts, reply, run, |run| - 1);
    var c, column := s.clients[i], GatheredFrom(s.log, i);
    assert ClientOk(scripts[i], c, column, Replies(reply, s.log));
    assert |scripts[i][..c.pos]| == c.pos;
    if c.down != [] {
      assert Enabled(scripts, s, Read(i));
    } else {
      assert c.got + c.down == c.got;
    }
  }
}
