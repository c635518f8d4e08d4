/** What a session has played, plays and will play, and moving along it. */
module Timeline {

  const HISTORY_LIMIT: nat := 64

  datatype State = State(history: seq<string>, current: string, queue: seq<string>)

  /** Everything in playing order. */
  function Line(s: State): (line: seq<string>) {
    s.history + [s.current] + s.queue
  }

  /** The history with one more track; the oldest goes when there are too many. */
  function Pushed(history: seq<string>, uri: string): (r: seq<string>) {
    if uri == "" then history
    else
      var h := history + [uri];
      if |h| > HISTORY_LIMIT then h[1..] else h
  }

  function Started(s: State, uri: string, push: bool): (t: State) {
    State(if push && s.current != "" && s.current != uri then Pushed(s.history, s.current) else s.history, uri, s.queue)
  }

  /** The next track is the front of the queue, or else the one the context offers, if it offers one. */
  function GoOn(s: State, offered: string): (t: State) {
    if s.queue != [] then Started(s.(queue := s.queue[1..]), s.queue[0], true)
    else if offered != "" then Started(s, offered, true)
    else s
  }

  function GoBack(s: State): (t: State) {
    if s.history == [] then s
    else
      var n := |s.history| - 1;
      var queue := if s.current != "" then [s.current] + s.queue else s.queue;
      Started(State(s.history[..n], s.current, queue), s.history[n], false)
  }

  /** A move from the queue keeps the line exactly when the current track enters the history and none falls out. */
  lemma OnKeepsLine(s: State, offered: string)
    requires s.queue != []
    ensures Line(GoOn(s, offered)) == Line(s)
      <==> s.current != "" && s.current != s.queue[0] && |s.history| < 64
  {
  }

  /** With the queue empty the offered track plays, and follows the line exactly under the same condition. */
  lemma OfferedFollows(s: State, offered: string)
    requires s.queue == []
    ensures offered == "" ==> GoOn(s, offered) == s
    ensures offered != "" ==> GoOn(s, offered).current == offered && GoOn(s, offered).queue == []
    ensures offered != "" ==>
      (Line(GoOn(s, offered)) == Line(s) + [offered] <==> s.current != "" && s.current != offered && |s.history| < 64)
  {
  }

  lemma BackKeepsLine(s: State)
    requires s.history != []
    ensures Line(GoBack(s)) == Line(s) <==> s.current != ""
  {
  }

  // ---------------------------------------------------------------- runs

  datatype Move = On | Back

  function Run(s: State, moves: seq<Move>): (t: State)
    decreases |moves|
  {
    if moves == [] then s
    else Run(if moves[0] == On then GoOn(s, "") else GoBack(s), moves[1..])
  }

  /** Where the moves lead on a line of so many tracks: they stop at its ends. */
  function Walk(p: nat, moves: seq<Move>, n: nat): (q: nat)
    requires p < n
    ensures q < n
    decreases |moves|
  {
    if moves == [] then p
    else Walk(if moves[0] == On then (if p + 1 < n then p + 1 else p) else (if p > 0 then p - 1 else p), moves[1..], n)
  }

  /** The state that stands at a place of a line. */
  function At(line: seq<string>, p: nat): (s: State)
    requires p < |line|
    ensures Line(s) == line
  {
    assert line[..p] + [line[p]] + line[p + 1..] == line;
    State(line[..p], line[p], line[p + 1..])
  }

  /** What one move must find at place p: a track that enters the history, and room for it there. */
  predicate KeepsOne(line: seq<string>, p: nat, m: Move)
    requires p < |line|
  {
    if m == On then p + 1 == |line| || (line[p] != "" && line[p] != line[p + 1] && p < HISTORY_LIMIT)
    else p == 0 || line[p] != ""
  }

  /** Every move of a walk along the line finds that. */
  predicate Keeps(line: seq<string>, p: nat, moves: seq<Move>)
    requires p < |line|
    decreases |moves|
  {
    moves == [] || (KeepsOne(line, p, moves[0]) && Keeps(line, Walk(p, moves[..1], |line|), moves[1..]))
  }

  lemma OneMove(line: seq<string>, p: nat, m: Move)
    requires p < |line| && KeepsOne(line, p, m)
    ensures Run(At(line, p), [m]) == At(line, Walk(p, [m], |line|))
  {
    assert [m][1..] == [];
    if m == On && p + 1 < |line| {
      assert line[..p] + [line[p]] == line[..p + 1];
      assert line[p + 1..][1..] == line[p + 2..];
    }
    if m == Back && p > 0 {
      assert line[..p][..p - 1] == line[..p - 1];
      assert [line[p]] + line[p + 1..] == line[p..];
    }
  }

  lemma OneLoss(line: seq<string>, p: nat, m: Move)
    requires p < |line| && !KeepsOne(line, p, m)
    ensures |Line(Run(At(line, p), [m]))| < |line|
  {
    assert [m][1..] == [];
    if m == On {
      OnKeepsLine(At(line, p), "");
    } else {
      BackKeepsLine(At(line, p));
    }
  }

  /** No run makes the line longer, so nothing that is lost comes back. */
  lemma {:induction false} NeverLonger(s: State, moves: seq<Move>)
    ensures |Line(Run(s, moves))| <= |Line(s)|
    decreases |moves|
  {
    if moves != [] {
      NeverLonger(if moves[0] == On then GoOn(s, "") else GoBack(s), moves[1..]);
    }
  }

  lemma RunFirst(s: State, moves: seq<Move>)
    requires moves != []
    ensures Run(s, moves) == Run(Run(s, moves[..1]), moves[1..])
    ensures moves[..1] == [moves[0]]
  {
    hide GoOn, GoBack;
    assert moves[..1][1..] == [];
  }

  lemma WalkFirst(p: nat, moves: seq<Move>, n: nat)
    requires p < n && moves != []
    ensures Walk(p, moves, n) == Walk(Walk(p, moves[..1], n), moves[1..], n)
  {
    assert moves[..1][1..] == [];
  }

  /** On all lines, for all runs: the line is kept exactly when each move keeps it, and then it is only walked. */
  lemma {:induction false} RunKeepsLine(line: seq<string>, p: nat, moves: seq<Move>)
    requires p < |line|
    ensures Line(Run(At(line, p), moves)) == line <==> Keeps(line, p, moves)
    ensures Keeps(line, p, moves) ==> Run(At(line, p), moves) == At(line, Walk(p, moves, |line|))
    decreases |moves|
  {
    hide At, KeepsOne, Line, Run, Walk;
    if moves == [] {
      NoMoves(line, p);
    } else {
      RunFirst(At(line, p), moves);
      WalkFirst(p, moves, |line|);
      if KeepsOne(line, p, moves[0]) {
        OneMove(line, p, moves[0]);
        RunKeepsLine(line, Walk(p, moves[..1], |line|), moves[1..]);
      } else {
        OneLoss(line, p, moves[0]);
        NeverLonger(Run(At(line, p), moves[..1]), moves[1..]);
      }
    }
  }

  lemma NoMoves(line: seq<string>, p: nat)
    requires p < |line|
    ensures Run(At(line, p), []) == At(line, p) && Walk(p, [], |line|) == p
  {
  }

  /** Tracks that the moves can tell apart. */
  predicate Walkable(line: seq<string>) {
    && (forall i :: 0 <= i < |line| ==> line[i] != "")
    && (forall i :: 0 < i < |line| ==> line[i - 1] != line[i])
  }

  /** No move on is made from place 64 or beyond with a queue left. */
  predicate WithinHistory(p: nat, moves: seq<Move>, n: nat)
    requires p < n
    decreases |moves|
  {
    moves == []
    || ((moves[0] == On && p + 1 < n ==> p < HISTORY_LIMIT) && WithinHistory(Walk(p, moves[..1], n), moves[1..], n))
  }

  /** On a line of non-empty tracks with unequal neighbours, of any length, only the bound of the history matters. */
  lemma {:induction false} RunWalks(line: seq<string>, p: nat, moves: seq<Move>)
    requires Walkable(line) && p < |line|
    ensures Line(Run(At(line, p), moves)) == line <==> WithinHistory(p, moves, |line|)
    ensures WithinHistory(p, moves, |line|) ==> Run(At(line, p), moves) == At(line, Walk(p, moves, |line|))
    decreases |moves|
  {
    hide Run, At, Line;
    RunKeepsLine(line, p, moves);
    KeptWithin(line, p, moves);
  }

  lemma {:induction false} KeptWithin(line: seq<string>, p: nat, moves: seq<Move>)
    requires Walkable(line) && p < |line|
    ensures Keeps(line, p, moves) <==> WithinHistory(p, moves, |line|)
    decreases |moves|
  {
    hide Walk;
    if moves != [] {
      assert p + 1 < |line| ==> line[p + 1 - 1] != line[p + 1];
      KeptWithin(line, Walk(p, moves[..1], |line|), moves[1..]);
    }
  }

  /** On a line of 66 tracks, a move on from the last but one loses the oldest. */
  lemma OldestIsLost(line: seq<string>)
    requires |line| == 66 && Walkable(line)
    ensures Run(At(line, 64), [On]) == State(line[1..65], line[65], [])
    ensures Line(Run(At(line, 64), [On])) == line[1..]
  {
    hide Walkable;
    assert line[64] != "" && line[64] != line[65] by {
      LastTwo(line);
    }
    assert [On][1..] == [];
    assert line[65..] == [line[65]];
    assert line[..64] + [line[64]] == line[..65];
    assert line[..65][1..] == line[1..65];
    assert line[1..65] + [line[65]] == line[1..];
  }

  lemma LastTwo(line: seq<string>)
    requires |line| == 66 && Walkable(line)
    ensures line[64] != "" && line[64] != line[65]
  {
    assert line[65 - 1] != line[65];
  }

  /** Every state is at its place on its own line, so the above is about all states with such a line. */
  lemma EveryStateIsAt(s: State)
    ensures |s.history| < |Line(s)| && s == At(Line(s), |s.history|)
  {
  }

  // ---------------------------------------------------------------- the session

  class Session {
    var queue: seq<string>
    var history: seq<string>
    var currentTrackUri: string

    ghost function Now(): (s: State)
      reads this
    {
      State(history, currentTrackUri, queue)
    }

    ghost predicate Valid()
      reads this
    {
      |history| <= HISTORY_LIMIT
    }

    constructor ()
      ensures Valid() && Now() == State([], "", [])
    {
      queue, history, currentTrackUri := [], [], "";
    }

    method QueuePopFront() returns (found: bool, uri: string)
      modifies this`queue
      ensures found <==> old(queue) != []
      ensures if found then old(queue) == [uri] + queue else uri == "" && queue == old(queue)
    {
      if |queue| == 0 {
        return false, "";
      }
      uri := queue[0];
      queue := queue[1..];
      return true, uri;
    }

    method HistoryPopBack() returns (found: bool, uri: string)
      modifies this`history
      ensures found <==> old(history) != []
      ensures if found then old(history) == history + [uri] else uri == "" && history == old(history)
    {
      if |history| == 0 {
        return false, "";
      }
      uri := history[|history| - 1];
      history := history[..|history| - 1];
      return true, uri;
    }

    method PushHistory(uri: string)
      modifies this`history
      ensures history == Pushed(old(history), uri)
    {
      if uri == "" {
        return;
      }
      history := history + [uri];
      if |history| > HISTORY_LIMIT {
        history := history[1..];
      }
    }

    /** Stops what plays and starts a track; what played goes into the history unless the caller says not to. */
    method StartPlayback(uri: string, pushHistoryForCurrent: bool)
      requires Valid()
      modifies this
      ensures Valid() && Now() == Started(old(Now()), uri, pushHistoryForCurrent)
    {
      if pushHistoryForCurrent && currentTrackUri != "" && currentTrackUri != uri {
        PushHistory(currentTrackUri);
      }
      currentTrackUri := uri;
    }

    method Next(offered: string) returns (moved: bool)
      requires Valid()
      modifies this
      ensures Valid() && Now() == GoOn(old(Now()), offered)
      ensures moved <==> old(queue) != [] || offered != ""
    {
      var found, uri := QueuePopFront();
      if !found {
        uri := offered;
        if uri == "" {
          return false;
        }
      }
      StartPlayback(uri, true);
      return true;
    }

    method Previous() returns (moved: bool)
      requires Valid()
      modifies this
      ensures Valid() && Now() == GoBack(old(Now()))
      ensures moved <==> old(history) != []
    {
      var found, uri := HistoryPopBack();
      if !found {
        return false;
      }
      assert history == old(history)[..|old(history)| - 1];
      if currentTrackUri != "" {
        queue := [currentTrackUri] + queue;
      }
      StartPlayback(uri, false);
      return true;
    }
  }
}
