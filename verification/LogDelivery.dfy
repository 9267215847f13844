/** How the server's log reaches the client: Server::LogError and GetError (src/cncserver.cpp:574-606) and
    Client::GetNextError (src/cncclient.cpp:782-798). Messages have the same code as errors, over fields of their own
    (LogMessage, GetMessage, GetNextMessage). */
module LogDelivery {

  /** The log after LogError. */
  function Pushed(entries: seq<string>, entry: string): seq<string> {
    if entry == "" then entries else entries + [entry]
  }

  /** GetError: an index past the end gives an empty string. */
  function EntryAt(entries: seq<string>, index: nat): string {
    if index >= |entries| then "" else entries[index]
  }

  datatype ReadResult = ReadResult(index: nat, entry: string)

  /** GetNextError. A call that fails gives an empty string and is made again next time. */
  function ReadNext(entries: seq<string>, known: nat, index: nat, answered: bool): ReadResult {
    if index >= known || !answered then ReadResult(index, "") else ReadResult(index + 1, EntryAt(entries, index))
  }

  // ---------- the objects ----------

  class ServerLog {
    var entries: seq<string>
    var count: nat

    constructor ()
      ensures entries == [] && count == 0
    {
      entries, count := [], 0;
    }

    method Log(entry: string)
      modifies this
      ensures entries == Pushed(old(entries), entry)
      ensures entries == if |entry| > 0 then old(entries) + [entry] else old(entries)
      ensures count == if entry == "" then old(count) else |entries|
    {
      if |entry| > 0 {
        entries := entries + [entry];
        count := |entries|;
      }
    }

    method Get(index: nat) returns (entry: string)
      ensures entry == EntryAt(entries, index)
      ensures entry == if index < |entries| then entries[index] else ""
    {
      if index >= |entries| {
        return "";
      }
      return entries[index];
    }
  }

  class Reader {
    var index: nat
    var known: nat

    constructor ()
      ensures index == 0 && known == 0
    {
      index, known := 0, 0;
    }

    method Next(log: ServerLog, answered: bool) returns (entry: string)
      modifies this
      ensures known == old(known)
      ensures ReadResult(index, entry) == ReadNext(log.entries, known, old(index), answered)
      ensures index == old(index) + if answered && old(index) < known then 1 else 0
      ensures entry == if index > old(index) && old(index) < |log.entries| then log.entries[old(index)] else ""
    {
      entry := "";
      if index >= known {
        return "";
      }
      if answered {
        entry := log.Get(index);
        index := index + 1;
      }
    }
  }

  // ---------- the system ----------

  /** `counting`: an entry has been pushed and the count not yet stored. `samples`: counts on their way to the client in
      status replies. `returned`: the strings, other than empty ones, that the client's calls have returned. */
  datatype World = World(
    entries: seq<string>, count: nat, counting: bool, samples: seq<nat>, known: nat, index: nat, returned: seq<string>)

  const START := World([], 0, false, [], 0, 0, [])

  /** `Push` and `Count` are the two writes of LogError; `Sample` may come between them. A status reply is read with
      `Learn`, or lost. */
  datatype Step =
    | Push(entry: string)
    | Count
    | Sample
    | Learn
    | Lose
    | Next(answered: bool)

  function Apply(w: World, s: Step): World {
    match s
    case Push(e) => if w.counting || e == "" then w else w.(entries := Pushed(w.entries, e), counting := true)
    case Count => if w.counting then w.(count := |w.entries|, counting := false) else w
    case Sample => w.(samples := w.samples + [w.count])
    case Learn => if w.samples == [] then w else w.(known := w.samples[0], samples := w.samples[1..])
    case Lose => if w.samples == [] then w else w.(samples := w.samples[1..])
    case Next(answered) =>
      var r := ReadNext(w.entries, w.known, w.index, answered);
      w.(index := r.index, returned := if r.entry == "" then w.returned else w.returned + [r.entry])
  }

  function Run(steps: seq<Step>): World
    decreases |steps|
  {
    if steps == [] then START else Apply(Run(steps[..|steps| - 1]), steps[|steps| - 1])
  }

  ghost predicate Invariant(w: World) {
    && w.index <= w.known <= w.count <= |w.entries|
    && (forall i :: 0 <= i < |w.entries| ==> w.entries[i] != "")
    && (forall i :: 0 <= i < |w.samples| ==> w.known <= w.samples[i] <= w.count)
    && (forall i, j :: 0 <= i < j < |w.samples| ==> w.samples[i] <= w.samples[j])
    && w.returned == w.entries[..w.index]
  }

  lemma StepKeepsInvariant(w: World, s: Step)
    requires Invariant(w)
    ensures Invariant(Apply(w, s))
  {
    var v := Apply(w, s);
    if s.Next? && v.index != w.index {
      assert w.entries[..w.index + 1] == w.entries[..w.index] + [w.entries[w.index]];
    } else if s.Push? {
      assert v.entries[..w.index] == w.entries[..w.index];
    }
  }

  /** Over every interleaving the client has been given the first `index` entries of the log, in order, each once. */
  lemma {:induction false} DeliveredInOrder(steps: seq<Step>)
    ensures Invariant(Run(steps))
    decreases |steps|
  {
    hide Apply, Invariant;
    if steps == [] {
      StartInvariant();
    } else {
      DeliveredInOrder(steps[..|steps| - 1]);
      StepKeepsInvariant(Run(steps[..|steps| - 1]), steps[|steps| - 1]);
    }
  }

  lemma StartInvariant()
    ensures Invariant(START)
  {
  }

  /** In every run, a call returns the empty string exactly when it failed or nothing the client knows of is pending;
      otherwise it returns the next entry. */
  lemma EmptyExactlyWhen(steps: seq<Step>, answered: bool)
    ensures var w := Run(steps);
      var r := ReadNext(w.entries, w.known, w.index, answered);
      && (r.entry == "" <==> !answered || w.index == w.known)
      && (r.entry != "" ==> w.index < |w.entries| && r == ReadResult(w.index + 1, w.entries[w.index]))
      && (r.entry == "" ==> r.index == w.index)
  {
    hide Run;
    DeliveredInOrder(steps);
    var w := Run(steps);
    assert w.index < w.known ==> EntryAt(w.entries, w.index) == w.entries[w.index] != "";
  }

  /** What the client's calls add to what it has been given. */
  lemma ReturnedExactlyWhen(steps: seq<Step>, answered: bool)
    ensures var w := Run(steps);
      var v := Apply(w, Next(answered));
      && (v.returned == w.returned <==> !answered || w.index == w.known)
      && (answered && w.index < w.known ==> w.index < |w.entries| && v.returned == w.returned + [w.entries[w.index]])
  {
    hide Run, ReadNext, Invariant;
    EmptyExactlyWhen(steps, answered);
    DeliveredInOrder(steps);
    KnownIsThere(Run(steps));
  }

  lemma KnownIsThere(w: World)
    requires Invariant(w)
    ensures w.index <= w.known <= |w.entries|
  {
  }

  /** One entry is logged, and the client learns of it. */
  const ONE_PENDING: seq<Step> := [Push("e"), Count, Sample, Learn]

  /** An entry is pending, the call for it fails, and an empty string comes back; the next call returns the entry. */
  lemma EmptyWhilePending()
    ensures var w := Run(ONE_PENDING);
      && w.index < w.known
      && ReadNext(w.entries, w.known, w.index, false) == ReadResult(0, "")
      && ReadNext(w.entries, w.known, Apply(w, Next(false)).index, true) == ReadResult(1, "e")
  {
    hide Run, Apply;
    var a := START.(entries := ["e"], counting := true);
    var b := a.(count := 1, counting := false);
    var c := b.(samples := [1]);
    var d := b.(known := 1);
    FourSteps(a, b, c, d);
    RunOf4(Push("e"), Count, Sample, Learn);
    NextOfOne(d);
  }

  lemma FourSteps(a: World, b: World, c: World, d: World)
    requires a == START.(entries := ["e"], counting := true) && b == a.(count := 1, counting := false)
    requires c == b.(samples := [1]) && d == b.(known := 1)
    ensures Apply(START, Push("e")) == a && Apply(a, Count) == b && Apply(b, Sample) == c && Apply(c, Learn) == d
  {
    assert [] + [1] == [1] && [1][1..] == [];
  }

  lemma NextOfOne(d: World)
    requires d.entries == ["e"] && d.known == 1 && d.index == 0
    ensures ReadNext(d.entries, 1, 0, false) == ReadResult(0, "") && Apply(d, Next(false)).index == 0
    ensures ReadNext(d.entries, 1, 0, true) == ReadResult(1, "e")
  {
    assert EntryAt(["e"], 0) == "e";
  }

  lemma RunOf4(p: Step, q: Step, r: Step, s: Step)
    ensures Run([p, q, r, s]) == Apply(Apply(Apply(Apply(START, p), q), r), s)
  {
    hide Apply, Run;
    NothingRun();
    OneStepMore([], p);
    OneStepMore([p], q);
    OneStepMore([p, q], r);
    OneStepMore([p, q, r], s);
    assert [] + [p] == [p] && [p] + [q] == [p, q] && [p, q] + [r] == [p, q, r] && [p, q, r] + [s] == [p, q, r, s];
  }

  lemma NothingRun()
    ensures Run([]) == START
  {
  }

  lemma OneStepMore(steps: seq<Step>, s: Step)
    ensures Run(steps + [s]) == Apply(Run(steps), s)
  {
    hide Apply;
    assert (steps + [s])[..|steps|] == steps;
  }

  function Calls(n: nat): seq<Step> {
    seq(n, _ => Next(true))
  }

  /** When the client has learnt of the whole log, as many answered calls as entries are pending return the rest. */
  lemma {:induction false} EverythingArrives(steps: seq<Step>, n: nat)
    requires var w := Run(steps); w.known == |w.entries| && n == |w.entries| - w.index
    ensures Run(steps + Calls(n)).returned == Run(steps).entries
    decreases n
  {
    hide Apply, Invariant;
    var w := Run(steps);
    DeliveredInOrder(steps);
    if n == 0 {
      assert steps + Calls(0) == steps;
      AllReturned(w);
    } else {
      var more := steps + [Next(true)];
      assert more[..|steps|] == steps && more[|steps|] == Next(true);
      OneMore(w);
      EverythingArrives(more, n - 1);
      assert more + Calls(n - 1) == steps + Calls(n);
    }
  }

  lemma AllReturned(w: World)
    requires Invariant(w) && w.index == |w.entries|
    ensures w.returned == w.entries
  {
  }

  lemma OneMore(w: World)
    requires Invariant(w) && w.index < w.known
    ensures var v := Apply(w, Next(true)); v.index == w.index + 1 && v.known == w.known && v.entries == w.entries
  {
  }
}
