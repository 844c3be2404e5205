/**
 * A tribute (one competitor) and the generator of tribute identities.
 *
 * A tribute is a value: the engine copies it whenever it reads it, and the
 * canonical copy lives inside its district. `Kill` and `AddKill` give the
 * updated value; the in-place update of the canonical copy is done by the
 * simulation, which replaces the element of its `districts` field.
 */
module Tribute {
  import opened Pronouns

  datatype Tribute = Tribute(
    name: string,
    avatarUrl: string,
    pronouns: Pronouns,
    kills: nat,
    isAlive: bool,
    id: nat)

  function GetId(t: Tribute): (id: nat)
    ensures id == t.id
  {
    t.id
  }

  /** Marks the tribute dead; nothing else about it changes. */
  function Kill(t: Tribute): (r: Tribute)
    ensures !r.isAlive
    ensures r.name == t.name && r.avatarUrl == t.avatarUrl && r.pronouns == t.pronouns
    ensures r.kills == t.kills && r.id == t.id
  {
    t.(isAlive := false)
  }

  /** Credits the tribute with one more kill; nothing else about it changes. */
  function AddKill(t: Tribute): (r: Tribute)
    ensures r.kills == t.kills + 1
    ensures r.name == t.name && r.avatarUrl == t.avatarUrl && r.pronouns == t.pronouns
    ensures r.isAlive == t.isAlive && r.id == t.id
  {
    t.(kills := t.kills + 1)
  }

  /** Killing twice is killing once. */
  lemma KillIdempotent(t: Tribute)
    ensures Kill(Kill(t)) == Kill(t)
  {
  }

  /**
   * Killing and crediting a kill touch different fields, so a tribute that is
   * both victim and killer of one event ends the same whichever comes first.
   */
  lemma KillAddKillCommute(t: Tribute)
    ensures Kill(AddKill(t)) == AddKill(Kill(t))
  {
  }

  /**
   * The source of fresh identities: a counter that starts at 1 and hands out
   * its current value, then moves on by one. `issued` records every identity
   * handed out so far.
   */
  class IdGenerator {
    var counter: nat
    ghost var issued: set<nat>

    ghost predicate Valid()
      reads this
    {
      counter >= 1 && forall id :: id in issued ==> 1 <= id < counter
    }

    constructor ()
      ensures Valid()
      ensures counter == 1 && issued == {}
    {
      counter := 1;
      issued := {};
    }

    /** The first call gives 1; every later call gives one more than the last. */
    method NewId() returns (id: nat)
      requires Valid()
      modifies this
      ensures Valid()
      ensures id == old(counter) && counter == id + 1
      ensures id >= 1
      ensures id !in old(issued)
      ensures forall earlier :: earlier in old(issued) ==> earlier < id
      ensures issued == old(issued) + {id}
    {
      id := counter;
      counter := counter + 1;
      issued := issued + {id};
    }
  }

  /**
   * A tribute as the loader creates it: the name, avatar and pronouns come
   * from the data file, the tribute is alive, has no kills and gets a fresh
   * identity.
   */
  method NewTribute(gen: IdGenerator, name: string, avatarUrl: string, pronouns: Pronouns)
    returns (t: Tribute)
    requires gen.Valid()
    modifies gen
    ensures gen.Valid()
    ensures t.isAlive && t.kills == 0
    ensures t.name == name && t.avatarUrl == avatarUrl && t.pronouns == pronouns
    ensures t.id !in old(gen.issued) && gen.issued == old(gen.issued) + {t.id}
  {
    var id := gen.NewId();
    t := Tribute(name, avatarUrl, pronouns, 0, true, id);
  }
}
