/**
 * TranscriptLogs: what the log of a run of the prover or of the verifier holds. Equal logs come from
 * equal commitments, claims, cross terms and final keys.
 */
module TranscriptLogs {
  import opened ScalarField
  import opened Polynomials
  import opened Transcripts
  import opened Gipa
  import opened ProductForms
  import opened Aggregation

  lemma SplitLast(p: seq<Entry>, x: Entry, q: seq<Entry>, y: Entry)
    requires p + [x] == q + [y]
    ensures p == q && x == y
  {
    var s, t := p + [x], q + [y];
    assert |p| == |s| - 1 && |q| == |t| - 1;
    assert p == s[..|s| - 1] && q == t[..|t| - 1];
    assert x == s[|s| - 1] && y == t[|t| - 1];
  }

  lemma SplitAppend(p: seq<Entry>, tag: string, u: Vec, q: seq<Entry>, v: Vec)
    requires p + [Append(tag, u)] == q + [Append(tag, v)]
    ensures p == q && u == v
  {
    SplitLast(p, Append(tag, u), q, Append(tag, v));
  }

  /** A commitment goes into one entry. */
  lemma SplitPair(p: seq<Entry>, tag: string, u: Output, q: seq<Entry>, v: Output)
    requires p + [Append(tag, [u.t, u.u])] == q + [Append(tag, [v.t, v.u])]
    ensures p == q && u == v
  {
    SplitAppend(p, tag, [u.t, u.u], q, [v.t, v.u]);
    assert [u.t, u.u][0] == [v.t, v.u][0] && [u.t, u.u][1] == [v.t, v.u][1];
  }

  lemma SplitScalar(p: seq<Entry>, tag: string, u: F, q: seq<Entry>, v: F)
    requires p + [Append(tag, [u])] == q + [Append(tag, [v])]
    ensures p == q && u == v
  {
    SplitAppend(p, tag, [u], q, [v]);
    assert [u][0] == [v][0];
  }

  /** The inner products in the log of one round. */
  function ScalarLog(log: seq<Entry>, xInv: F, rd: Round): seq<Entry> {
    log + [Append("c_inv", [xInv])]
      + [Append("zab_l", [rd.zabL])] + [Append("zab_r", [rd.zabR])]
      + [Append("zc_l", [rd.zcL])] + [Append("zc_r", [rd.zcR])]
  }

  lemma ScalarsInLog(log: seq<Entry>, x: F, rd: Round, log': seq<Entry>, x': F, rd': Round)
    requires ScalarLog(log, x, rd) == ScalarLog(log', x', rd')
    ensures log == log' && x == x'
    ensures rd.zabL == rd'.zabL && rd.zabR == rd'.zabR && rd.zcL == rd'.zcL && rd.zcR == rd'.zcR
  {
    var p1, q1 := log + [Append("c_inv", [x])], log' + [Append("c_inv", [x'])];
    var p2, q2 := p1 + [Append("zab_l", [rd.zabL])], q1 + [Append("zab_l", [rd'.zabL])];
    var p3, q3 := p2 + [Append("zab_r", [rd.zabR])], q2 + [Append("zab_r", [rd'.zabR])];
    var p4, q4 := p3 + [Append("zc_l", [rd.zcL])], q3 + [Append("zc_l", [rd'.zcL])];
    SplitScalar(p4, "zc_r", rd.zcR, q4, rd'.zcR);
    SplitScalar(p3, "zc_l", rd.zcL, q3, rd'.zcL);
    SplitScalar(p2, "zab_r", rd.zabR, q2, rd'.zabR);
    SplitScalar(p1, "zab_l", rd.zabL, q1, rd'.zabL);
    SplitScalar(log, "c_inv", x, log', x');
  }

  /** The log of one round determines all its cross terms and the inverse challenge before it. */
  lemma RoundInLog(log: seq<Entry>, x: F, rd: Round, log': seq<Entry>, x': F, rd': Round)
    requires RoundLog(log, x, rd) == RoundLog(log', x', rd')
    ensures log == log' && x == x' && rd == rd'
  {
    var p5, q5 := ScalarLog(log, x, rd), ScalarLog(log', x', rd');
    var p6, q6 := p5 + [Append("tab_l", [rd.tabL.t, rd.tabL.u])], q5 + [Append("tab_l", [rd'.tabL.t, rd'.tabL.u])];
    var p7, q7 := p6 + [Append("tab_r", [rd.tabR.t, rd.tabR.u])], q6 + [Append("tab_r", [rd'.tabR.t, rd'.tabR.u])];
    var p8, q8 := p7 + [Append("tuc_l", [rd.tucL.t, rd.tucL.u])], q7 + [Append("tuc_l", [rd'.tucL.t, rd'.tucL.u])];
    var p9, q9 := p8 + [Append("tuc_r", [rd.tucR.t, rd.tucR.u])], q8 + [Append("tuc_r", [rd'.tucR.t, rd'.tucR.u])];
    assert RoundLog(log, x, rd) == p9 + [Draw("challenge_i")] && RoundLog(log', x', rd') == q9 + [Draw("challenge_i")];
    hide ScalarLog, RoundLog;
    SplitLast(p9, Draw("challenge_i"), q9, Draw("challenge_i"));
    SplitPair(p8, "tuc_r", rd.tucR, q8, rd'.tucR);
    SplitPair(p7, "tuc_l", rd.tucL, q7, rd'.tucL);
    SplitPair(p6, "tab_r", rd.tabR, q6, rd'.tabR);
    SplitPair(p5, "tab_l", rd.tabL, q5, rd'.tabL);
    ScalarsInLog(log, x, rd, log', x', rd');
  }

  lemma FirstInLog(log: seq<Entry>, ipAB: F, aggC: F, log': seq<Entry>, ipAB': F, aggC': F)
    requires FirstLog(log, ipAB, aggC) == FirstLog(log', ipAB', aggC')
    ensures log == log' && ipAB == ipAB' && aggC == aggC'
  {
    var p1, q1 := log + [Append("inner-product-ab", [ipAB])], log' + [Append("inner-product-ab", [ipAB'])];
    var p2, q2 := p1 + [Append("comm-c", [aggC])], q1 + [Append("comm-c", [aggC'])];
    SplitLast(p2, Draw("first-challenge"), q2, Draw("first-challenge"));
    SplitScalar(p1, "comm-c", aggC, q1, aggC');
    SplitScalar(log, "inner-product-ab", ipAB, log', ipAB');
  }

  /** The commitments that the first challenge depends on. */
  lemma CommitmentsInLog(log: seq<Entry>, comAB: Output, comC: Output, log': seq<Entry>, comAB': Output, comC': Output)
    requires CommitmentLog(log, comAB, comC) == CommitmentLog(log', comAB', comC')
    ensures log == log' && comAB == comAB' && comC == comC'
  {
    var p1 := log + [Append("AB-commitment", [comAB.t, comAB.u])];
    var q1 := log' + [Append("AB-commitment", [comAB'.t, comAB'.u])];
    var p2, q2 := p1 + [Append("C-commitment", [comC.t, comC.u])], q1 + [Append("C-commitment", [comC'.t, comC'.u])];
    SplitLast(p2, Draw("r-random-fiatshamir"), q2, Draw("r-random-fiatshamir"));
    SplitPair(p1, "C-commitment", comC, q1, comC');
    SplitPair(log, "AB-commitment", comAB, log', comAB');
  }

  /** The challenge and the final keys that the opening point depends on. */
  lemma KeysInLog(log: seq<Entry>, c: F, vkey: (F, F), wkey: (F, F), log': seq<Entry>, c': F, vkey': (F, F), wkey': (F, F))
    requires KzgLog(log, c, vkey, wkey) == KzgLog(log', c', vkey', wkey')
    ensures log == log' && c == c' && vkey == vkey' && wkey == wkey'
  {
    var p1, q1 := log + [Append("kzg-challenge", [c])], log' + [Append("kzg-challenge", [c'])];
    var p2, q2 := p1 + [Append("vkey0", [vkey.0])], q1 + [Append("vkey0", [vkey'.0])];
    var p3, q3 := p2 + [Append("vkey1", [vkey.1])], q2 + [Append("vkey1", [vkey'.1])];
    var p4, q4 := p3 + [Append("wkey0", [wkey.0])], q3 + [Append("wkey0", [wkey'.0])];
    var p5, q5 := p4 + [Append("wkey1", [wkey.1])], q4 + [Append("wkey1", [wkey'.1])];
    SplitLast(p5, Draw("z-challenge"), q5, Draw("z-challenge"));
    SplitScalar(p4, "wkey1", wkey.1, q4, wkey'.1);
    SplitScalar(p3, "wkey0", wkey.0, q3, wkey'.0);
    SplitScalar(p2, "vkey1", vkey.1, q2, vkey'.1);
    SplitScalar(p1, "vkey0", vkey.0, q1, vkey'.0);
    SplitScalar(log, "kzg-challenge", c, log', c');
  }

  // ----- whole runs

  lemma RoundLogLength(log: seq<Entry>, xInv: F, rd: Round)
    ensures |RoundLog(log, xInv, rd)| == |log| + 10
  {
  }

  lemma {:induction false} LogLength(oracle: Oracle, first: seq<Entry>, rounds: seq<Round>)
    ensures |LogAfter(oracle, first, rounds)| == |first| + (if rounds == [] then 0 else 10 * (|rounds| - 1))
    decreases |rounds|
  {
    hide RoundLog;
    if |rounds| > 1 {
      var init := rounds[..|rounds| - 1];
      LogLength(oracle, first, init);
      RoundLogLength(LogAfter(oracle, first, init), oracle(LogAfter(oracle, first, init)), rounds[|rounds| - 1]);
    }
  }

  /** With as many rounds, the log determines the cross terms of all rounds but the first. */
  lemma {:induction false} RoundsInLog(oracle: Oracle, first: seq<Entry>, rounds: seq<Round>, first': seq<Entry>,
                                       rounds': seq<Round>)
    requires |rounds| == |rounds'| > 0 && LogAfter(oracle, first, rounds) == LogAfter(oracle, first', rounds')
    ensures first == first' && rounds[1..] == rounds'[1..]
    decreases |rounds|
  {
    hide RoundLog;
    if |rounds| > 1 {
      var n := |rounds| - 1;
      var before, before' := LogAfter(oracle, first, rounds[..n]), LogAfter(oracle, first', rounds'[..n]);
      RoundInLog(before, oracle(before), rounds[n], before', oracle(before'), rounds'[n]);
      RoundsInLog(oracle, first, rounds[..n], first', rounds'[..n]);
      assert rounds[1..] == rounds[..n][1..] + [rounds[n]];
      assert rounds'[1..] == rounds'[..n][1..] + [rounds'[n]];
    }
  }

  lemma SameRoundCount(oracle: Oracle, first: seq<Entry>, rounds: seq<Round>, first': seq<Entry>, rounds': seq<Round>)
    requires |first| == |first'| && rounds != [] && rounds' != []
    requires |LogAfter(oracle, first, rounds)| == |LogAfter(oracle, first', rounds')|
    ensures |rounds| == |rounds'|
  {
    LogLength(oracle, first, rounds);
    LogLength(oracle, first', rounds');
  }

  /**
   * What the recursion leaves in the log, on either side: from starting logs of one length, equal logs
   * mean equal claims and equal rounds from the second on.
   */
  lemma LogDetermines(oracle: Oracle, log: seq<Entry>, ipAB: F, aggC: F, rounds: seq<Round>,
                      log': seq<Entry>, ipAB': F, aggC': F, rounds': seq<Round>)
    requires |log| == |log'| && rounds != [] && rounds' != []
    requires LogAfter(oracle, FirstLog(log, ipAB, aggC), rounds) == LogAfter(oracle, FirstLog(log', ipAB', aggC'), rounds')
    ensures log == log' && ipAB == ipAB' && aggC == aggC'
    ensures |rounds| == |rounds'| && rounds[1..] == rounds'[1..]
  {
    hide LogAfter;
    var first, first' := FirstLog(log, ipAB, aggC), FirstLog(log', ipAB', aggC');
    SameRoundCount(oracle, first, rounds, first', rounds');
    RoundsInLog(oracle, first, rounds, first', rounds');
    FirstInLog(log, ipAB, aggC, log', ipAB', aggC');
  }

  /** The parts of an aggregate that its log determines. */
  ghost predicate SameLogged(agg: AggregateProof, agg': AggregateProof)
    requires ParsedArgument(agg) && ParsedArgument(agg')
  {
    var gipa, gipa' := agg.tmipp.gipa, agg'.tmipp.gipa;
    && agg.comAB == agg'.comAB && agg.comC == agg'.comC && agg.ipAB == agg'.ipAB && agg.aggC == agg'.aggC
    && gipa.Rounds()[1..] == gipa'.Rounds()[1..]
    && gipa.finalVkey == gipa'.finalVkey && gipa.finalWkey == gipa'.finalWkey
  }

  /** Two aggregates leave the same log exactly when they agree in all these parts and on the start. */
  lemma AggregateLogExact(oracle: Oracle, log: seq<Entry>, agg: AggregateProof, log': seq<Entry>, agg': AggregateProof)
    requires |log| == |log'| && ParsedArgument(agg) && ParsedArgument(agg')
    ensures AggregateLog(oracle, log, agg) == AggregateLog(oracle, log', agg') <==> log == log' && SameLogged(agg, agg')
  {
    hide CommitmentLog, KzgLog, FirstLog, LogAfter, Inverses, Zip;
    var gipa, gipa' := agg.tmipp.gipa, agg'.tmipp.gipa;
    var start, start' := CommitmentLog(log, agg.comAB, agg.comC), CommitmentLog(log', agg'.comAB, agg'.comC);
    var first, first' := FirstLog(start, agg.ipAB, agg.aggC), FirstLog(start', agg'.ipAB, agg'.aggC);
    CommitmentLength(log, agg.comAB, agg.comC);
    CommitmentLength(log', agg'.comAB, agg'.comC);
    FirstLength(start, agg.ipAB, agg.aggC);
    FirstLength(start', agg'.ipAB, agg'.aggC);
    var t, t' := LastChallenge(oracle, first, gipa.Rounds()), LastChallenge(oracle, first', gipa'.Rounds());
    if AggregateLog(oracle, log, agg) == AggregateLog(oracle, log', agg') {
      KeysInLog(LogAfter(oracle, first, gipa.Rounds()), t, gipa.finalVkey, gipa.finalWkey,
                LogAfter(oracle, first', gipa'.Rounds()), t', gipa'.finalVkey, gipa'.finalWkey);
      LogDetermines(oracle, start, agg.ipAB, agg.aggC, gipa.Rounds(), start', agg'.ipAB, agg'.aggC, gipa'.Rounds());
      CommitmentsInLog(log, agg.comAB, agg.comC, log', agg'.comAB, agg'.comC);
    }
    if log == log' && SameLogged(agg, agg') {
      FirstRoundUnlogged(oracle, first, gipa.Rounds(), gipa'.Rounds());
    }
  }

  function LastChallenge(oracle: Oracle, first: seq<Entry>, rounds: seq<Round>): F
    requires rounds != []
  {
    Reverse(InvAll(Inverses(oracle, first, rounds)))[0]
  }

  lemma CommitmentLength(log: seq<Entry>, comAB: Output, comC: Output)
    ensures |CommitmentLog(log, comAB, comC)| == |log| + 3
  {
  }

  lemma FirstLength(log: seq<Entry>, ipAB: F, aggC: F)
    ensures |FirstLog(log, ipAB, aggC)| == |log| + 3
  {
  }

  /** The first challenge is drawn before the cross terms of its round are there. */
  lemma {:induction false} FirstRoundUnlogged(oracle: Oracle, first: seq<Entry>, rounds: seq<Round>, rounds': seq<Round>)
    requires |rounds| == |rounds'| > 0 && rounds[1..] == rounds'[1..]
    ensures LogAfter(oracle, first, rounds) == LogAfter(oracle, first, rounds')
    ensures LastChallenge(oracle, first, rounds) == LastChallenge(oracle, first, rounds')
    decreases |rounds|
  {
    hide RoundLog;
    var n := |rounds| - 1;
    if n > 0 {
      assert rounds[..n][1..] == rounds[1..][..n - 1] == rounds'[..n][1..];
      FirstRoundUnlogged(oracle, first, rounds[..n], rounds'[..n]);
      assert rounds[n] == rounds[1..][n - 1] == rounds'[n];
    }
  }
}
