/** CircuitTheorems: what the output of a compiled circuit says about the message. */
module CircuitTheorems {
  import opened DfaGraphs
  import opened CircuitRuns

  /** The circuit prepends 255 to the message, whose bytes it constrains to be smaller. */
  function Input(msg: seq<Byte>): (input: seq<Byte>)
    ensures |input| == |msg| + 1
  {
    [255] + msg
  }

  /** At most one state other than 0 is ever on. */
  lemma AtMostOneActive(c: Circuit, g: Graph, input: seq<Byte>, s: nat, t: nat)
    requires Compilable(g) && Implements(c, g) && s < |g| && t < |g| && s != 0 && t != 0
    requires Bits(c, input)[s] && Bits(c, input)[t]
    ensures s == t == Scan(g, input)
  {
    hide Bits, Scan;
    Simulation(c, g, input);
  }

  // ----- circuits without an end anchor

  /** The output is one exactly when the scanner stands on an accepting state at some point. */
  lemma OutPlain(c: Circuit, g: Graph, msg: seq<Byte>)
    requires Compilable(g) && Implements(c, g) && !c.anchored
    ensures Out(c, Input(msg)) <= 1
    ensures Out(c, Input(msg)) == 1
       <==> exists i: nat :: i <= |Input(msg)| && Scan(g, Input(msg)[..i]) < |g| && g[Scan(g, Input(msg)[..i])].accept
  {
    hide Bits, Scan, Accepted, Implements, Compilable;
    var input := Input(msg);
    forall i: nat | i <= |input|
      ensures Scan(g, input[..i]) < |g|
      ensures Accepted(c.judge, Bits(c, input[..i])) <==> g[Scan(g, input[..i])].accept || g[0].accept
    {
      AcceptedScan(c, g, input[..i]);
    }
    assert Scan(g, input[..0]) == 0 by {
      ScanStep(g, input, 0);
    }
  }

  /** An output of one means that some stretch of the input is in the language. */
  lemma OutFindsMatch(c: Circuit, g: Graph, msg: seq<Byte>) returns (from: nat, end: nat)
    requires Compilable(g) && Implements(c, g) && !c.anchored && Out(c, Input(msg)) == 1
    ensures from <= end <= |Input(msg)| && Accepts(g, Input(msg)[from..end])
  {
    hide Bits, Accepted, Implements;
    var input := Input(msg);
    OutPlain(c, g, msg);
    var i: nat :| i <= |input| && Scan(g, input[..i]) < |g| && g[Scan(g, input[..i])].accept;
    from := ScanFindsFactor(g, input[..i]);
    end := i;
    assert input[..i][from..] == input[from..end];
  }

  // ----- which matches a scan without an end anchor finds

  ghost predicate NoZero(word: seq<Byte>) {
    forall k :: 0 <= k < |word| ==> word[k] != 0
  }

  /** An accepted word of nonzero bytes whose path does not come back to the start. */
  ghost predicate Match(g: Graph, word: seq<Byte>) {
    Accepts(g, word) && NoZero(word) && forall k :: 0 < k <= |word| ==> !Path(g, 0, word[..k], 0)
  }

  /** Where the moves lead from the start, or 0 once they have stopped. */
  ghost function Follow(g: Graph, word: seq<Byte>): nat {
    if word == [] then 0
    else
      var s, b := Follow(g, word[..|word| - 1]), word[|word| - 1];
      if |word| > 1 && s == 0 then 0 else Move(g, s, b)
  }

  lemma {:induction false} FollowIsPath(g: Graph, word: seq<Byte>)
    requires Deterministic(g) && Follow(g, word) != 0
    ensures Path(g, 0, word, Follow(g, word)) && NoZero(word)
    ensures forall k :: 0 < k <= |word| ==> !Path(g, 0, word[..k], 0)
    decreases |word|
  {
    hide Move;
    var n := |word| - 1;
    var init, b, t := word[..n], word[n], Follow(g, word);
    var s := Follow(g, init);
    if n > 0 {
      FollowIsPath(g, init);
    }
    PathSnoc(g, 0, init, s, b, t);
    assert init + [b] == word;
    forall k | 0 < k <= |word|
      ensures !Path(g, 0, word[..k], 0)
    {
      if k <= n {
        assert word[..k] == init[..k];
      } else {
        assert word[..k] == word;
        if Path(g, 0, word, 0) {
          PathUnique(g, 0, word, 0, t);
        }
      }
    }
  }

  lemma {:induction false} PathIsFollow(g: Graph, word: seq<Byte>, t: nat)
    requires Closed(g) && Deterministic(g) && g != [] && word != [] && Path(g, 0, word, t) && NoZero(word)
    requires forall k :: 0 < k <= |word| ==> !Path(g, 0, word[..k], 0)
    ensures t != 0 && Follow(g, word) == t
    decreases |word|
  {
    hide Move;
    var n := |word| - 1;
    var init, b := word[..n], word[n];
    assert word[..|word|] == word;
    var mid: nat :| Path(g, 0, init, mid) && EdgeOn(g, mid, b, t);
    if n > 0 {
      forall k | 0 < k <= n
        ensures !Path(g, 0, init[..k], 0)
      {
        assert init[..k] == word[..k];
      }
      PathIsFollow(g, init, mid);
    }
    MoveIs(g, mid, b, t);
  }

  /** At this position the scanner starts afresh. */
  ghost predicate StartsAfresh(g: Graph, input: seq<Byte>, i: nat)
    requires i < |input|
  {
    Scan(g, input[..i]) == 0 || Move(g, Scan(g, input[..i]), input[i]) == 0
  }

  /** From a fresh start the scanner follows a match to its end. */
  lemma {:induction false} ScanFollows(g: Graph, input: seq<Byte>, i: nat, j: nat)
    requires i < j <= |input| && StartsAfresh(g, input, i) && Follow(g, input[i..j]) != 0
    ensures Scan(g, input[..j]) == Follow(g, input[i..j])
    decreases j
  {
    hide Move;
    var word, n := input[i..j], j - 1;
    assert word[..|word| - 1] == input[i..n] && word[|word| - 1] == input[n];
    ScanStep(g, input, n);
    if i < n {
      ScanFollows(g, input, i, n);
    } else {
      assert input[i..n] == [];
    }
  }

  /** An active state was followed from the last fresh start. */
  lemma {:induction false} LastStart(g: Graph, input: seq<Byte>, j: nat) returns (i: nat)
    requires j <= |input| && Scan(g, input[..j]) != 0
    ensures i < j && StartsAfresh(g, input, i) && Follow(g, input[i..j]) == Scan(g, input[..j])
    decreases j
  {
    hide Move;
    var n := j - 1;
    assert input[..0] == [];
    ScanStep(g, input, n);
    var s, b := Scan(g, input[..n]), input[n];
    if s != 0 && Move(g, s, b) != 0 {
      i := LastStart(g, input, n);
    } else {
      i := n;
      assert input[n..n] == [];
    }
    var word := input[i..j];
    assert word[..|word| - 1] == input[i..n] && word[|word| - 1] == b;
  }

  /**
   * Exactly the matches that begin where the scanner starts afresh are found: where it has no
   * active state, or one without a move on the first byte of the match.
   */
  lemma OutExact(c: Circuit, g: Graph, msg: seq<Byte>)
    requires Compilable(g) && Implements(c, g) && !c.anchored && !g[0].accept
    ensures var input := Input(msg);
      Out(c, input) == 1 <==> exists i, j :: 0 <= i < j <= |input| && Match(g, input[i..j]) && StartsAfresh(g, input, i)
  {
    hide Out, Scan, Follow, Match, StartsAfresh, Implements, Path;
    var input := Input(msg);
    OutPlain(c, g, msg);
    if Out(c, input) == 1 {
      var j: nat :| j <= |input| && Scan(g, input[..j]) < |g| && g[Scan(g, input[..j])].accept;
      var i := LastStart(g, input, j);
      FollowIsMatch(g, input[i..j]);
    }
    if i: nat, j: nat :| i < j <= |input| && Match(g, input[i..j]) && StartsAfresh(g, input, i) {
      MatchIsFollow(g, input[i..j]);
      ScanFollows(g, input, i, j);
    }
  }

  lemma FollowIsMatch(g: Graph, word: seq<Byte>)
    requires Deterministic(g) && 0 < Follow(g, word) < |g| && g[Follow(g, word)].accept
    ensures Match(g, word)
  {
    hide Follow, Path;
    FollowIsPath(g, word);
  }

  lemma MatchIsFollow(g: Graph, word: seq<Byte>)
    requires Closed(g) && Deterministic(g) && g != [] && word != [] && Match(g, word)
    ensures 0 < Follow(g, word) < |g| && g[Follow(g, word)].accept
  {
    hide Follow, Path;
    var t: nat :| t < |g| && g[t].accept && Path(g, 0, word, t);
    PathIsFollow(g, word, t);
  }

  /** Every accepted word of nonzero bytes ends with a match. */
  lemma {:induction false} MatchInside(g: Graph, word: seq<Byte>) returns (from: nat)
    requires Compilable(g) && !g[0].accept && Accepts(g, word) && NoZero(word)
    ensures from < |word| && Match(g, word[from..])
    decreases |word|
  {
    hide Path;
    var t: nat :| t < |g| && g[t].accept && Path(g, 0, word, t);
    assert word != [] by {
      if word == [] {
        EmptyLeadsNowhere(g, t);
      }
    }
    if k: nat :| 0 < k <= |word| && Path(g, 0, word[..k], 0) {
      assert word[..k] + word[k..] == word;
      var mid := PathSplit(g, 0, word[..k], word[k..], t);
      PathUnique(g, 0, word[..k], 0, mid);
      var rest := MatchInside(g, word[k..]);
      from := k + rest;
      assert word[k..][rest..] == word[from..];
    } else {
      from := 0;
      assert word[0..] == word;
    }
  }

  lemma EmptyLeadsNowhere(g: Graph, t: nat)
    requires Path(g, 0, [], t)
    ensures t == 0
  {
  }

  /** No byte that leads on from the start leads on from another state. */
  ghost predicate StartsApart(g: Graph) {
    forall b: Byte, s: nat, t: nat, u: nat ::
      s != 0 && t != 0 && u != 0 && b != 0 && EdgeOn(g, 0, b, t) ==> !EdgeOn(g, s, b, u)
  }

  lemma ApartStartsAfresh(g: Graph, input: seq<Byte>, i: nat, j: nat)
    requires StartsApart(g) && Compilable(g) && i < j <= |input| && Match(g, input[i..j])
    ensures StartsAfresh(g, input, i)
  {
    hide Scan, Path;
    var word := input[i..j];
    MatchIsFollow(g, word);
    FollowFirst(g, word);
    assert word[0] == input[i];
    assert EdgeOn(g, 0, input[i], Move(g, 0, input[i]));
  }

  lemma {:induction false} FollowFirst(g: Graph, word: seq<Byte>)
    requires word != [] && Follow(g, word) != 0
    ensures Move(g, 0, word[0]) != 0
    decreases |word|
  {
    hide Move;
    var init := word[..|word| - 1];
    if |word| > 1 {
      FollowFirst(g, init);
      assert init[0] == word[0];
    } else {
      assert init == [];
    }
  }

  /** When starts are apart the circuit finds every match: the output is one exactly when some stretch is accepted. */
  lemma FindsEveryMatch(c: Circuit, g: Graph, msg: seq<Byte>)
    requires Compilable(g) && Implements(c, g) && !c.anchored && StartsApart(g)
    ensures var input := Input(msg);
      Out(c, input) == 1 <==> exists i, j :: 0 <= i <= j <= |input| && NoZero(input[i..j]) && Accepts(g, input[i..j])
  {
    hide Out, Match, StartsAfresh, Implements, Accepts, StartsApart;
    var input := Input(msg);
    if g[0].accept {
      OutAlways(c, g, msg);
      return;
    }
    OutExact(c, g, msg);
    if Out(c, input) == 1 {
      var i: nat, j: nat :| i < j <= |input| && Match(g, input[i..j]) && StartsAfresh(g, input, i);
      MatchIsAccepted(g, input[i..j]);
    }
    if i: nat, j: nat :| i <= j <= |input| && NoZero(input[i..j]) && Accepts(g, input[i..j]) {
      var from := MatchInside(g, input[i..j]);
      assert input[i..j][from..] == input[i + from..j];
      ApartStartsAfresh(g, input, i + from, j);
    }
  }

  /** When state 0 accepts, so is the empty stretch, and every message. */
  lemma OutAlways(c: Circuit, g: Graph, msg: seq<Byte>)
    requires Compilable(g) && Implements(c, g) && !c.anchored && g[0].accept
    ensures Out(c, Input(msg)) == 1 && NoZero(Input(msg)[0..0]) && Accepts(g, Input(msg)[0..0])
  {
    hide Out, Scan, Implements;
    var input := Input(msg);
    OutPlain(c, g, msg);
    ScanStep(g, input, 0);
    assert input[0..0] == [] && Path(g, 0, [], 0);
  }

  lemma MatchIsAccepted(g: Graph, word: seq<Byte>)
    requires Match(g, word)
    ensures Accepts(g, word) && NoZero(word)
  {
  }

  /** The automaton of the word 1 1 2. */
  function OneOneTwo(): (g: Graph)
    ensures |g| == 4
  {
    [Node(false, 0, map[1 := {1}]), Node(false, 1, map[2 := {1}]), Node(false, 2, map[3 := {2}]), Node(true, 3, map[])]
  }

  lemma OneOneTwoEdges(s: nat, b: Byte, t: nat)
    ensures EdgeOn(OneOneTwo(), s, b, t) <==> t == s + 1 && ((s <= 1 && b == 1) || (s == 2 && b == 2))
  {
  }

  lemma OneOneTwoCompilable()
    ensures Compilable(OneOneTwo()) && forall s :: 0 <= s < 4 ==> (OneOneTwo()[s].accept <==> s == 3)
  {
    var g := OneOneTwo();
    forall s, t | 0 <= s < |g| && t in g[s].edges && t != 0
      ensures g[s].edges[t] - {0} != {}
    {
      assert (if s == 2 then 2 else 1) in g[s].edges[t] - {0};
    }
  }

  lemma OneOneTwoAccepts()
    ensures Accepts(OneOneTwo(), [1, 1, 2])
  {
    hide OneOneTwo;
    var g := OneOneTwo();
    OneOneTwoEdges(0, 1, 1);
    OneOneTwoEdges(1, 1, 2);
    OneOneTwoEdges(2, 2, 3);
    PathSnoc(g, 0, [], 0, 1, 1);
    PathSnoc(g, 0, [] + [1], 1, 1, 2);
    PathSnoc(g, 0, [] + [1] + [1], 2, 2, 3);
    assert [] + [1] + [1] + [2] == [1, 1, 2];
    OneOneTwoCompilable();
  }

  lemma OneOneTwoNext(s: nat, b: Byte)
    requires s < 3
    ensures Next(OneOneTwo(), s, b)
         == if s == 1 && b == 1 then 2 else if s == 2 && b == 2 then 3 else if b == 1 then 1 else 0
  {
    hide OneOneTwo;
    var g := OneOneTwo();
    OneOneTwoMove(s, b);
    OneOneTwoMove(0, b);
  }

  lemma OneOneTwoMove(s: nat, b: Byte)
    requires s < 3
    ensures Move(OneOneTwo(), s, b) == if (s <= 1 && b == 1) || (s == 2 && b == 2) then s + 1 else 0
  {
    hide OneOneTwo;
    var g, t := OneOneTwo(), s + 1;
    OneOneTwoCompilable();
    OneOneTwoEdges(s, b, t);
    MoveIs(g, s, b, t);
    OneOneTwoEdges(s, b, Move(g, s, b));
  }

  /** The converse fails: scanning 1 1 1 2 without backing up misses the match 1 1 2 at its end. */
  lemma ScannerMissesMatch(c: Circuit)
    requires Implements(c, OneOneTwo()) && !c.anchored
    ensures Out(c, Input([1, 1, 1, 2])) == 0 && Accepts(OneOneTwo(), Input([1, 1, 1, 2])[2..5])
  {
    hide OneOneTwo, Accepts, Implements, Out, Scan, Next;
    var g, input := OneOneTwo(), Input([1, 1, 1, 2]);
    OneOneTwoCompilable();
    OneOneTwoAccepts();
    assert input[2..5] == [1, 1, 2];
    ScanStep(g, input, 0);
    OneOneTwoNext(0, 255);
    ScanStep(g, input, 1);
    OneOneTwoNext(0, 1);
    ScanStep(g, input, 2);
    OneOneTwoNext(1, 1);
    ScanStep(g, input, 3);
    OneOneTwoNext(2, 1);
    ScanStep(g, input, 4);
    OneOneTwoNext(1, 2);
    OutPlain(c, g, [1, 1, 1, 2]);
  }

  lemma ScanStep(g: Graph, input: seq<Byte>, i: nat)
    requires i < |input|
    ensures Scan(g, input[..i + 1]) == Next(g, Scan(g, input[..i]), input[i]) && Scan(g, input[..0]) == 0
  {
    assert input[..i + 1][..i] == input[..i];
  }

  // ----- circuits with an end anchor

  /** The sum has its only nonzero term at the start of the padding. */
  lemma {:induction false} EndAnchorCheckIs(c: Circuit, input: seq<Byte>, i: nat)
    requires i <= |input|
    ensures EndAnchorCheck(c, input, i)
         == if PaddingStart(input) < i && Accepted(c.judge, Bits(c, input[..PaddingStart(input)])) then 1 else 0
  {
    hide Bits, Accepted, PaddingStart;
    if i != 0 {
      EndAnchorCheckIs(c, input, i - 1);
    }
  }

  /**
   * The output is one exactly when some byte is zero and the scanner stands on an accepting state
   * after as many bytes as there are nonzero ones, or state 0 accepts.
   */
  lemma OutAnchored(c: Circuit, g: Graph, msg: seq<Byte>)
    requires Compilable(g) && Implements(c, g) && c.anchored
    ensures Out(c, Input(msg)) <= 1
    ensures var input, p := Input(msg), PaddingStart(Input(msg));
      Out(c, input) == 1 <==> (p < |input| && Scan(g, input[..p]) < |g| && (g[Scan(g, input[..p])].accept || g[0].accept))
  {
    hide Bits, Scan, Accepted, PaddingStart, EndAnchorCheck, Implements;
    var input := Input(msg);
    EndAnchorCheckIs(c, input, |input|);
    AcceptedScan(c, g, input[..PaddingStart(input)]);
  }

  /** A message without a zero byte is never accepted by an anchored circuit. */
  lemma NoPaddingNoMatch(c: Circuit, g: Graph, msg: seq<Byte>)
    requires Compilable(g) && Implements(c, g) && c.anchored && forall i :: 0 <= i < |msg| ==> msg[i] != 0
    ensures Out(c, Input(msg)) == 0
  {
    hide Bits, Scan, Accepted, EndAnchorCheck, Implements;
    AllNonZero(Input(msg));
    OutAnchored(c, g, msg);
  }

  lemma {:induction false} AllNonZero(input: seq<Byte>)
    requires forall i :: 0 <= i < |input| ==> input[i] != 0
    ensures PaddingStart(input) == |input|
    decreases |input|
  {
    if input != [] {
      AllNonZero(input[..|input| - 1]);
    }
  }

  /** Trailing zeros do not count. */
  lemma {:induction false} PaddedStart(word: seq<Byte>, zeros: nat)
    requires forall i :: 0 <= i < |word| ==> word[i] != 0
    ensures PaddingStart(word + seq(zeros, _ => 0)) == |word|
    decreases zeros
  {
    var padded := word + seq(zeros, _ => 0);
    if zeros == 0 {
      assert padded == word;
      AllNonZero(word);
    } else {
      assert padded[..|padded| - 1] == word + seq(zeros - 1, _ => 0);
      PaddedStart(word, zeros - 1);
    }
  }

  // ----- anchored at both ends

  /** State 0 leaves only on 255, which stands before the message. */
  ghost predicate CaretGraph(g: Graph) {
    forall b: Byte, t: nat :: EdgeOn(g, 0, b, t) ==> b == 255
  }

  /** After 255 the scanner never restarts: it is where the automaton is, or nowhere. */
  lemma {:induction false} CaretScan(g: Graph, word: seq<Byte>, t: nat)
    requires Compilable(g) && CaretGraph(g) && t != 0
    requires forall i :: 0 <= i < |word| ==> 0 < word[i] < 255
    ensures Scan(g, [255] + word) < |g| && (Scan(g, [255] + word) == t <==> Path(g, 0, [255] + word, t))
    decreases |word|
  {
    hide Next, Move;
    var input := [255] + word;
    ScanInRange(g, input);
    var init, b := input[..|input| - 1], input[|input| - 1];
    if word == [] {
      assert init == [];
      NextFromZero(g, b);
      MoveIs(g, 0, b, t);
    } else {
      assert init == [255] + word[..|word| - 1] && b == word[|word| - 1];
      var s := Scan(g, init);
      ScanInRange(g, init);
      NextInside(g, s, b, t);
      if s != 0 {
        CaretScan(g, word[..|word| - 1], s);
      }
      if Path(g, 0, input, t) {
        var mid: nat :| Path(g, 0, init, mid) && EdgeOn(g, mid, b, t);
        assert mid != 0;
        CaretScan(g, word[..|word| - 1], mid);
      }
    }
  }

  lemma NextFromZero(g: Graph, b: Byte)
    ensures Next(g, 0, b) == Move(g, 0, b)
  {
  }

  lemma NextInside(g: Graph, s: nat, b: Byte, t: nat)
    requires Deterministic(g) && CaretGraph(g) && s < |g| && t != 0 && 0 < b < 255
    ensures Next(g, s, b) == t <==> s != 0 && EdgeOn(g, s, b, t)
  {
    hide Move;
    MoveIs(g, s, b, t);
    assert Move(g, 0, b) == 0;
  }

  /**
   * A circuit anchored at both ends decides the language: for a word padded with at least one zero
   * the output is one exactly when the automaton accepts 255 followed by the word.
   */
  lemma CaretExact(c: Circuit, g: Graph, word: seq<Byte>, zeros: nat)
    requires Compilable(g) && Implements(c, g) && c.anchored && CaretGraph(g) && zeros >= 1 && !g[0].accept
    requires forall i :: 0 <= i < |word| ==> 0 < word[i] < 255
    ensures Out(c, Input(word + seq(zeros, _ => 0))) == 1 <==> Accepts(g, [255] + word)
  {
    hide Bits, Scan, Accepted, PaddingStart, EndAnchorCheck, Implements, Out, Path;
    var msg := word + seq(zeros, _ => 0);
    var whole := [255] + word;
    assert Input(msg) == whole + seq(zeros, _ => 0);
    PaddedStart(whole, zeros);
    OutAnchored(c, g, msg);
    assert Input(msg)[..|whole|] == whole;
    ScanInRange(g, whole);
    var s := Scan(g, whole);
    if g[s].accept {
      CaretScan(g, word, s);
    }
    if Accepts(g, whole) {
      var t: nat :| t < |g| && g[t].accept && Path(g, 0, whole, t);
      CaretScan(g, word, t);
    }
  }
}
