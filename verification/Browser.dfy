// What an effect leaves pending in the JavaScript environment: connect() calls suspended
// at their await, open streams and armed timers, each under its own handle. The
// environment keeps these sets itself; they do not depend on which handles the program
// still remembers.
module Browser {

  datatype World = World(pending: set<nat>, live: set<nat>, armed: set<nat>, next: nat) {

    function Activities(): nat { |pending| + |live| + |armed| }

    predicate OneCall() { |pending| == 1 && live == {} && armed == {} }

    predicate OneStream() { pending == {} && |live| == 1 && armed == {} }

    predicate OneTimer() { pending == {} && live == {} && |armed| == 1 }

    // Handles are never reused.
    ghost predicate Fresh() {
      && (forall h :: h in pending ==> h < next)
      && (forall h :: h in live ==> h < next)
      && (forall h :: h in armed ==> h < next)
    }

    function Suspend(): World { this.(pending := pending + {next}, next := next + 1) }

    function Resume(call: nat): World { this.(pending := pending - {call}) }

    function Open(): World { this.(live := live + {next}, next := next + 1) }

    function Close(stream: nat): World { this.(live := live - {stream}) }

    function Arm(): World { this.(armed := armed + {next}, next := next + 1) }

    function Disarm(timer: nat): World { this.(armed := armed - {timer}) }
  }
}
