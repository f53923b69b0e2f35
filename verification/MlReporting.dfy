/** Reporting of inference results: only changes of the keyword are reported, to a queue for
    the broker and to a handler that drives the LEDs. */
module MlReporting {
  import opened Leds

  datatype Keyword = Silence | Unknown | Yes | No | Up | Down | Left | Right | On | Off | Go | StopWord

  const LED_YES: Word := {0}
  const LED_GO: Word := {1}
  const LED_UP: Word := {2}
  const LED_LEFT: Word := {3}
  const LED_ON: Word := {4}
  const LED_ALIVE: Word := {5}

  /** What the handler makes of the LEDs for one keyword. */
  function LedsAfter(port: Word, keyword: Keyword): Word {
    match keyword
    case Yes => port + LED_YES
    case No => port - LED_YES
    case Go => port + LED_GO
    case StopWord => port - LED_GO
    case Up => port + LED_UP
    case Down => port - LED_UP
    case Left => port + LED_LEFT
    case Right => port - LED_LEFT
    case On => port + LED_ON
    case Off => port - LED_ON
    case Silence => port
    case Unknown => port
  }

  /** The LEDs bit by bit: the first of two keywords switches its LED on, the second off, and
      a keyword leaves all LEDs alone but its own. */
  predicate Switched(before: Word, after: Word, keyword: Keyword) {
    && (keyword in {Yes, Go, Up, Left, On} ==>
          (if keyword == Yes then 0 else if keyword == Go then 1 else if keyword == Up then 2
           else if keyword == Left then 3 else 4) in after)
    && (keyword in {No, StopWord, Down, Right, Off} ==>
          (if keyword == No then 0 else if keyword == StopWord then 1 else if keyword == Down then 2
           else if keyword == Right then 3 else 4) !in after)
    && (forall bit: nat :: bit in after && bit !in before ==> bit < 5 && keyword == [Yes, Go, Up, Left, On][bit])
    && (forall bit: nat :: bit in before && bit !in after ==>
          bit < 5 && keyword == [No, StopWord, Down, Right, Off][bit])
  }

  lemma LedsAfterSwitches(port: Word, keyword: Keyword)
    ensures Switched(port, LedsAfter(port, keyword), keyword)
  {
  }

  /** The handler registered by the LED task. */
  method ProcessStateChange(bank: LedBank, keyword: Keyword) returns (ok: bool)
    requires bank.Valid()
    modifies bank
    ensures bank.Valid() && ok && bank.port == LedsAfter(old(bank.port), keyword)
    ensures Switched(old(bank.port), bank.port, keyword)
  {
    LedsAfterSwitches(bank.port, keyword);
    ok := true;
    match keyword
    case Yes => ok := bank.TurnOn(LED_YES);
    case No => ok := bank.TurnOff(LED_YES);
    case Go => ok := bank.TurnOn(LED_GO);
    case StopWord => ok := bank.TurnOff(LED_GO);
    case Up => ok := bank.TurnOn(LED_UP);
    case Down => ok := bank.TurnOff(LED_UP);
    case Left => ok := bank.TurnOn(LED_LEFT);
    case Right => ok := bank.TurnOff(LED_LEFT);
    case On => ok := bank.TurnOn(LED_ON);
    case Off => ok := bank.TurnOff(LED_ON);
    case Silence =>
    case Unknown =>
  }

  /** Drop every element equal to its predecessor, the first one's being `previous`. */
  function Changes(previous: Keyword, results: seq<Keyword>): seq<Keyword>
    decreases |results|
  {
    if results == [] then []
    else if results[0] == previous then Changes(previous, results[1..])
    else [results[0]] + Changes(results[0], results[1..])
  }

  /** What is left has no element equal to its predecessor, and ends as the results do. */
  lemma {:induction false} ChangesDiffer(previous: Keyword, results: seq<Keyword>)
    ensures var c := Changes(previous, results);
            && (c != [] ==> c[0] != previous)
            && (forall i :: 0 <= i < |c| - 1 ==> c[i] != c[i + 1])
            && LatestResult(previous, c) == LatestResult(previous, results)
    decreases |results|
  {
    if results != [] {
      ChangesDiffer(results[0], results[1..]);
      var c, later := Changes(previous, results), Changes(results[0], results[1..]);
      assert LatestResult(results[0], results[1..]) == LatestResult(previous, results);
      if results[0] != previous {
        assert LatestResult(previous, c) == LatestResult(results[0], later);
        assert c == [results[0]] + later;
        forall i | 0 <= i < |c| - 1 ensures c[i] != c[i + 1] {
          assert c[i + 1] == later[i];
          if i > 0 {
            assert c[i] == later[i - 1] && later[i - 1] != later[i - 1 + 1];
          }
        }
      }
    }
  }

  /** No result is left out but those equal to their predecessors: the changes are some of the
      results, in order. */
  lemma {:induction false} ChangesAreResults(previous: Keyword, results: seq<Keyword>)
    ensures Subsequence(Changes(previous, results), results)
    decreases |results|
  {
    if results != [] {
      ChangesAreResults(results[0], results[1..]);
      if results[0] == previous {
        assert Changes(previous, results) == Changes(results[0], results[1..]);
        SkipsFirst(Changes(results[0], results[1..]), results);
      }
    }
  }

  lemma SkipsFirst(part: seq<Keyword>, whole: seq<Keyword>)
    requires whole != [] && Subsequence(part, whole[1..])
    ensures Subsequence(part, whole)
  {
  }

  predicate Subsequence(part: seq<Keyword>, whole: seq<Keyword>) {
    if part == [] then true
    else if whole == [] then false
    else if part[0] == whole[0] && Subsequence(part[1..], whole[1..]) then true
    else Subsequence(part, whole[1..])
  }

  /** What happens around the reporter: an inference result, the broker task taking a message
      from the queue, or the blinking task toggling the is-alive LED. */
  datatype Event = Result(keyword: Keyword) | Dequeue | Blink

  function Results(events: seq<Event>): seq<Keyword> {
    if events == [] then []
    else
      var before := Results(events[..|events| - 1]);
      match events[|events| - 1] case Result(keyword) => before + [keyword] case _ => before
  }

  /** The LEDs if the handler ran for every single result. */
  function LedsAlways(start: Word, events: seq<Event>): Word {
    if events == [] then start
    else
      var port := LedsAlways(start, events[..|events| - 1]);
      match events[|events| - 1]
      case Result(keyword) => LedsAfter(port, keyword)
      case Dequeue => port
      case Blink => Xor(port, LED_ALIVE)
  }

  /** Whether an LED is on after some results: as the last result that names it says. */
  function NamedLast(results: seq<Keyword>, on: Keyword, off: Keyword, before: bool): bool {
    if results == [] then before
    else
      var last := results[|results| - 1];
      if last == on then true
      else if last == off then false
      else NamedLast(results[..|results| - 1], on, off, before)
  }

  lemma {:induction false} NamedLastIsLast(results: seq<Keyword>, on: Keyword, off: Keyword, before: bool, i: nat)
    requires on != off && i < |results| && results[i] in {on, off}
    requires forall j :: i < j < |results| ==> results[j] !in {on, off}
    ensures NamedLast(results, on, off, before) == (results[i] == on)
    decreases |results|
  {
    if i < |results| - 1 {
      NamedLastIsLast(results[..|results| - 1], on, off, before, i);
    }
  }

  /** The LEDs of a word, one by one, after some events. */
  ghost predicate Shows(start: Word, events: seq<Event>, port: Word) {
    var results := Results(events);
    && (0 in port <==> NamedLast(results, Yes, No, 0 in start))
    && (1 in port <==> NamedLast(results, Go, StopWord, 1 in start))
    && (2 in port <==> NamedLast(results, Up, Down, 2 in start))
    && (3 in port <==> NamedLast(results, Left, Right, 3 in start))
    && (4 in port <==> NamedLast(results, On, Off, 4 in start))
    && (5 in port <==> if multiset(events)[Blink] % 2 == 0 then 5 in start else 5 !in start)
    && (forall bit: nat :: bit > 5 ==> (bit in port <==> bit in start))
  }

  lemma ShowsNext(start: Word, before: seq<Event>, next: Event, port: Word)
    requires Shows(start, before, port)
    ensures Shows(start, before + [next],
                  match next
                  case Result(keyword) => LedsAfter(port, keyword)
                  case Dequeue => port
                  case Blink => Xor(port, LED_ALIVE))
  {
    assert (before + [next])[..|before|] == before;
    ResultsNext(before, next);
  }

  lemma ResultsNext(before: seq<Event>, next: Event)
    ensures Results(before + [next]) == Results(before) + if next.Result? then [next.keyword] else []
    ensures forall on, off, was :: NamedLast(Results(before + [next]), on, off, was) ==
              if next == Result(on) then true
              else if next == Result(off) then false
              else NamedLast(Results(before), on, off, was)
  {
    assert (before + [next])[..|before|] == before;
    if next.Result? {
      assert (Results(before) + [next.keyword])[..|Results(before)|] == Results(before);
    }
  }

  lemma {:induction false} LedsShow(start: Word, events: seq<Event>)
    ensures Shows(start, events, LedsAlways(start, events))
  {
    if events != [] {
      var before := events[..|events| - 1];
      LedsShow(start, before);
      ShowsNext(start, before, events[|events| - 1], LedsAlways(start, before));
      assert events == before + [events[|events| - 1]];
    }
  }

  function LatestResult(previous: Keyword, results: seq<Keyword>): Keyword {
    if results == [] then previous else results[|results| - 1]
  }

  lemma {:induction false} ChangesAppend(previous: Keyword, results: seq<Keyword>, next: Keyword)
    ensures Changes(previous, results + [next]) ==
            if next == LatestResult(previous, results) then Changes(previous, results)
            else Changes(previous, results) + [next]
    decreases |results|
  {
    if results == [] {
      assert ([next])[1..] == [];
    } else {
      assert (results + [next])[1..] == results[1..] + [next];
      ChangesAppend(results[0], results[1..], next);
    }
  }

  lemma {:induction false} SubsequenceGrows(part: seq<Keyword>, whole: seq<Keyword>, next: Keyword)
    requires Subsequence(part, whole)
    ensures Subsequence(part, whole + [next])
    ensures Subsequence(part + [next], whole + [next])
  {
    if whole == [] {
      assert part + [next] == whole + [next] == [next];
    } else {
      assert (whole + [next])[1..] == whole[1..] + [next];
      if part != [] && part[0] == whole[0] && Subsequence(part[1..], whole[1..]) {
        SubsequenceGrows(part[1..], whole[1..], next);
        assert (part + [next])[1..] == part[1..] + [next];
      } else if part == [] {
        SubsequenceGrows([], whole[1..], next);
      } else {
        SubsequenceGrows(part, whole[1..], next);
      }
    }
  }

  /** A keyword's LED is already as the keyword wants it, whatever blinked since. */
  ghost predicate Settled(port: Word, keyword: Keyword) {
    LedsAfter(port, keyword) == port
  }

  lemma SettledAfter(port: Word, keyword: Keyword)
    ensures Settled(LedsAfter(port, keyword), keyword)
    ensures Settled(port, keyword) ==> Settled(Xor(port, LED_ALIVE), keyword)
  {
  }

  class Reporter {
    var state: Keyword
    const capacity: nat
    const hasQueue: bool
    const bank: LedBank
    var queue: seq<Keyword>
    ghost var sent: seq<Keyword>     // messages accepted by the queue
    ghost var handled: seq<Keyword>  // calls of the handler

    ghost predicate Valid()
      reads this, bank
    {
      bank.Valid() && |queue| <= capacity
    }

    constructor (bank: LedBank, hasQueue: bool, capacity: nat)
      requires bank.Valid()
      ensures Valid() && this.bank == bank && this.hasQueue == hasQueue && this.capacity == capacity
      ensures state == Silence && queue == [] && sent == [] && handled == []
    {
      this.bank, this.hasQueue, this.capacity := bank, hasQueue, capacity;
      state, queue, sent, handled := Silence, [], [], [];
    }

    /** Report a result. Without a queue a change is neither sent nor handled nor remembered;
        with a full queue it is handled and remembered all the same. */
    method SetState(newState: Keyword)
      requires Valid()
      modifies this, bank
      ensures Valid()
      ensures newState == old(state) || !hasQueue ==>
                state == old(state) && queue == old(queue) && sent == old(sent)
                && handled == old(handled) && bank.port == old(bank.port)
      ensures newState != old(state) && hasQueue ==>
                && state == newState
                && handled == old(handled) + [newState]
                && bank.port == LedsAfter(old(bank.port), newState)
                && (if |old(queue)| < capacity
                    then queue == old(queue) + [newState] && sent == old(sent) + [newState]
                    else queue == old(queue) && sent == old(sent))
    {
      if newState != state {
        if !hasQueue {
          return;
        }
        if |queue| < capacity {
          queue, sent := queue + [newState], sent + [newState];
        }
        state := newState;
        handled := handled + [newState];
        var ok := ProcessStateChange(bank, newState);
      }
    }

    /** The whole life of a reporter: the handler is called for exactly the changes, the
        messages are some of them in order, and the LEDs end as if it had been called for
        every result. LED calls follow one another here; `LedTasks` takes them apart and says
        exactly when that makes no difference. */
    method Run(events: seq<Event>)
      requires Valid() && hasQueue
      requires state == Silence && sent == [] && handled == [] && queue == []
      modifies this, bank
      ensures Valid()
      ensures handled == Changes(Silence, Results(events))
      ensures Subsequence(sent, handled)
      ensures exists taken: nat :: taken <= |sent| && queue == sent[taken..]
      ensures bank.port == LedsAlways(old(bank.port), events)
      ensures Shows(old(bank.port), events, bank.port)
    {
      LedsShow(bank.port, events);
      ghost var taken := 0;
      for i := 0 to |events|
        invariant Valid()
        invariant handled == Changes(Silence, Results(events[..i]))
        invariant state == LatestResult(Silence, Results(events[..i])) && Settled(bank.port, state)
        invariant Subsequence(sent, handled)
        invariant taken <= |sent| && queue == sent[taken..]
        invariant bank.port == LedsAlways(old(bank.port), events[..i])
      {
        assert events[..i + 1][..i] == events[..i];
        ghost var port, before := bank.port, handled;
        match events[i]
        case Result(keyword) =>
          ChangesAppend(Silence, Results(events[..i]), keyword);
          SubsequenceGrows(sent, handled, keyword);
          SettledAfter(port, keyword);
          SetState(keyword);
        case Dequeue =>
          if queue != [] {
            queue := queue[1..];
            taken := taken + 1;
          }
        case Blink =>
          SettledAfter(port, state);
          var ok := bank.Toggle(LED_ALIVE);
      }
      assert events[..|events|] == events;
    }
  }
}
