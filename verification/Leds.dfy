/** The board's LEDs: a port register written pin by pin, and a shadow of the last state set.
    A register word is the set of its one bits. */
module Leds {

  const LED_COUNT: nat := 10

  type Word = set<nat>

  /** The word is at most the mask of all LEDs: it has no bit beyond the last one. */
  predicate WithinMask(word: Word) {
    forall bit :: bit in word ==> bit < LED_COUNT
  }

  /** There are ten LEDs. */
  lemma LastLed()
    ensures WithinMask({9}) && !WithinMask({10})
  {
    assert 10 in {10};
  }

  function Xor(a: Word, b: Word): Word {
    (a - b) + (b - a)
  }

  /** The bits of the LEDs below a position. */
  function Below(position: nat): (word: Word)
    ensures forall bit :: bit in word <==> 0 <= bit < position
  {
    if position == 0 then {} else Below(position - 1) + {position - 1}
  }

  /** The port after the differing pins among `pins` have been written: those come from the
      target, the others are as they were. */
  function Written(port: Word, shadow: Word, target: Word, pins: Word): Word {
    var changed := Xor(target, shadow) * pins;
    (port - changed) + (target * changed)
  }

  class LedBank {
    var port: Word    // the hardware register
    var shadow: Word  // the state last set

    /** The shadow is what the hardware shows. */
    ghost predicate Valid()
      reads this
    {
      shadow == port && WithinMask(port)
    }

    constructor ()
      ensures Valid() && port == {}
    {
      port, shadow := {}, {};
    }

    method WritePin(position: nat, state: bool)
      modifies this`port
      ensures port == if state then old(port) + {position} else old(port) - {position}
    {
      port := if state then port + {position} else port - {position};
    }

    /** Set all LEDs; a state with a bit beyond the last LED is refused and changes nothing.
        Only pins whose shadow bit differs are written, so a port that does not agree with
        its shadow keeps the bits in which shadow and new state agree. */
    method SetState(newState: Word) returns (ok: bool)
      modifies this
      ensures ok <==> WithinMask(newState)
      ensures !ok ==> port == old(port) && shadow == old(shadow)
      ensures ok ==> shadow == newState && port == Written(old(port), old(shadow), newState, Below(LED_COUNT))
      ensures old(Valid()) ==> Valid() && (ok ==> port == newState)
    {
      if exists bit :: bit in newState && bit >= LED_COUNT {
        return false;
      }
      assert Below(0) == {};
      for position := 0 to LED_COUNT
        invariant shadow == old(shadow)
        invariant port == Written(old(port), shadow, newState, Below(position))
      {
        assert Below(position + 1) == Below(position) + {position};
        if position in Xor(newState, shadow) {
          WritePin(position, position in newState);
        }
      }
      shadow := newState;
      return true;
    }

    /** The LEDs after a call that asked for a state: the state is asked of the port, and the
        pins to be written are those that differ from the shadow. */
    twostate predicate Asked(ok: bool, target: Word)
      reads this
    {
      && (ok <==> WithinMask(target))
      && (if ok then shadow == target && port == Written(old(port), old(shadow), target, Below(LED_COUNT))
          else port == old(port) && shadow == old(shadow))
    }

    /** The current state is read back from the hardware, not from the shadow. */
    method TurnOn(leds: Word) returns (ok: bool)
      modifies this
      ensures Asked(ok, old(port) + leds)
      ensures old(Valid()) ==>
                Valid() && port == (if ok then old(port) + leds else old(port)) && (ok <==> WithinMask(leds))
    {
      ok := SetState(port + leds);
    }

    method TurnOff(leds: Word) returns (ok: bool)
      modifies this
      ensures Asked(ok, old(port) - leds)
      ensures old(Valid()) ==> Valid() && ok && port == old(port) - leds
    {
      ok := SetState(port - leds);
    }

    method Toggle(leds: Word) returns (ok: bool)
      modifies this
      ensures Asked(ok, Xor(old(port), leds))
      ensures old(Valid()) ==>
                Valid() && port == (if ok then Xor(old(port), leds) else old(port)) && (ok <==> WithinMask(leds))
    {
      ok := SetState(Xor(port, leds));
      if !ok && old(Valid()) {
        assert exists bit :: bit in Xor(old(port), leds) && bit >= LED_COUNT && bit in leds;
      }
    }
  }

  /** A write through the shadow reaches the target exactly when port and shadow agree on the
      LEDs whose state is not to change. */
  lemma ReachesTarget(port: Word, shadow: Word, target: Word)
    requires WithinMask(port) && WithinMask(shadow) && WithinMask(target)
    ensures Written(port, shadow, target, Below(LED_COUNT)) == target
       <==> forall bit :: bit in Below(LED_COUNT) && (bit in shadow <==> bit in target) ==>
           (bit in port <==> bit in shadow)
  {
    var written := Written(port, shadow, target, Below(LED_COUNT));
    assert forall bit :: bit in written <==>
             if bit in Xor(target, shadow) then bit in target else bit in port;
    if forall bit :: bit in Below(LED_COUNT) && (bit in shadow <==> bit in target) ==>
        (bit in port <==> bit in shadow) {
      assert forall bit :: bit in written <==> bit in target;
    }
  }
}
