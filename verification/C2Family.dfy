/** Chip setup: the little command lists every device family comes with, and the loop that interprets them. */
module C2Family {
  import opened Bytes
  import opened Errno

  /** One entry of a list.  `Other` is a token the interpreter does not know. */
  datatype Command =
    | Done
    | WriteSfr(reg: byte, value: byte)
    | WriteDirect(reg: byte, value: byte)
    | ReadSfr(reg: byte)
    | ReadDirect(reg: byte)
    | WaitUs(time: nat)
    | Other

  predicate IsRead(c: Command) {
    c.ReadSfr? || c.ReadDirect?
  }

  /** Does this entry do anything to the chip (waiting included)? */
  predicate Acts(c: Command) {
    !c.Done? && !c.Other?
  }

  /** What an entry comes to, `answer` being what the chip returned, if it returned at all.  A read hands back
      the byte it read. */
  function Result(c: Command, answer: Option<byte>): int {
    match c
    case Done => 1
    case WriteSfr(_, _) => if answer.Some? then 0 else -EIO
    case WriteDirect(_, _) => if answer.Some? then 0 else -EIO
    case ReadSfr(_) => if answer.Some? then answer.value else -EIO
    case ReadDirect(_) => if answer.Some? then answer.value else -EIO
    case WaitUs(_) => 0
    case Other => -1
  }

  /** Entry k is the first whose result is not 0, entry i being answered by `access(base + i)`. */
  ghost predicate StopsAt(list: seq<Command>, access: nat -> Option<byte>, base: nat, k: nat) {
    && k < |list| && Result(list[k], access(base + k)) != 0
    && forall i: nat | i < k :: Result(list[i], access(base + i)) == 0
  }

  class Setup {
    const access: nat -> Option<byte>  // the chip's answer to the n-th command carried out
    var log: seq<Command>              // the commands carried out

    constructor (access: nat -> Option<byte>)
      ensures this.access == access && log == []
    {
      this.access := access;
      log := [];
    }

    method Process(c: Command) returns (res: int)
      modifies this`log
      ensures res == Result(c, access(old(|log|)))
      ensures log == old(log) + if Acts(c) then [c] else []
    {
      var answer := access(|log|);
      match c {
        case Done => res := 1;
        case Other => res := -1;
        case WaitUs(_) => log := log + [c]; res := 0;
        case ReadSfr(_) | ReadDirect(_) => log := log + [c]; res := if answer.Some? then answer.value else -EIO;
        case WriteSfr(_, _) | WriteDirect(_, _) => log := log + [c]; res := if answer.Some? then 0 else -EIO;
      }
    }

    /** Carry out a family's list.  Some families have none. */
    method Run(setup: Option<seq<Command>>) returns (res: int, ghost k: nat)
      requires setup.Some? ==> exists d :: 0 <= d < |setup.value| && setup.value[d].Done?
      modifies this`log
      ensures setup.None? ==> res == 0 && log == old(log)
      ensures setup.Some? ==>
        && StopsAt(setup.value, access, old(|log|), k)
        && log == old(log) + setup.value[..k] + (if Acts(setup.value[k]) then [setup.value[k]] else [])
        && (res == 0 <==> Result(setup.value[k], access(old(|log|) + k)) == 1)
      ensures setup.Some? ==>
        && (setup.value[k].Done? ==> res == 0)
        && (setup.value[k].Other? || (Acts(setup.value[k]) && access(old(|log|) + k).None?) ==> res == -EIO)
        && !setup.value[k].WaitUs?
      ensures setup.Some? ==> forall d: nat | d < |setup.value| && setup.value[d].Done? :: k <= d
      ensures res == 0 || res == -EIO
    {
      k := 0;
      if setup.None? {
        return 0, k;
      }
      var list := setup.value;
      ghost var done :| 0 <= done < |list| && list[done].Done?;
      var at := 0;
      while true
        invariant at == k <= done
        invariant log == old(log) + list[..k]
        invariant forall i: nat | i < k :: Result(list[i], access(old(|log|) + i)) == 0
        decreases done - k
      {
        var r := Process(list[at]);
        if r != 0 {
          res := if r == 1 then 0 else -EIO;
          return;
        }
        assert list[..k + 1] == list[..k] + [list[k]];
        at, k := at + 1, k + 1;
      }
    }
  }

  /** A list that reads nothing before its first Done succeeds if and only if every write before it does, and
      then all of it has been carried out. */
  lemma WritesOnly(list: seq<Command>, access: nat -> Option<byte>, base: nat, k: nat, d: nat)
    requires StopsAt(list, access, base, k) && d < |list| && list[d].Done?
    requires forall i | 0 <= i < d :: Acts(list[i]) && !IsRead(list[i])
    ensures Result(list[k], access(base + k)) == 1 <==> k == d
    ensures k == d <==> forall i: nat | i < d :: list[i].WaitUs? || access(base + i).Some?
  {
    if k < d {
      assert Acts(list[k]) && !IsRead(list[k]);
      assert access(base + k).None?;
    } else {
      forall i: nat | i < d
        ensures list[i].WaitUs? || access(base + i).Some?
      {
        assert Result(list[i], access(base + i)) == 0;
      }
    }
  }

  /** With reads in the list, success means that everything went through and every value read was 0, or that a
      read of the value 1 cut the list short. */
  lemma WithReads(list: seq<Command>, access: nat -> Option<byte>, base: nat, k: nat, d: nat)
    requires StopsAt(list, access, base, k) && d < |list| && list[d].Done?
    requires forall i | 0 <= i < d :: Acts(list[i])
    ensures Result(list[k], access(base + k)) == 1 <==>
      k == d || (IsRead(list[k]) && access(base + k) == Some(1))
    ensures k == d ==> forall i: nat | i < d && IsRead(list[i]) :: access(base + i) == Some(0)
  {
    if k < d {
      assert Acts(list[k]);
    } else {
      forall i: nat | i < d && IsRead(list[i])
        ensures access(base + i) == Some(0)
      {
        assert Result(list[i], access(base + i)) == 0;
      }
    }
  }

  /** The C8051F35x list, which looks at the clock multiplier's register before using it. */
  const F35X := [WriteSfr(0xB6, 0x10), WriteSfr(0xAB, 0x00), WriteSfr(0xBE, 0x80), WaitUs(5), WriteSfr(0xBE, 0xC0),
                 WaitUs(10000), ReadSfr(0xBE), WriteSfr(0xA9, 0x02), Done]

  /** A multiplier that reads back enabled (bit 7, as just written) makes this setup fail, and the multiplier is
      then not made the system clock. */
  lemma EnabledMultiplierFails(access: nat -> Option<byte>, base: nat, k: nat)
    requires StopsAt(F35X, access, base, k)
    requires access(base + 6).Some? && access(base + 6).value >= 0x80
    ensures k <= 6 && Result(F35X[k], access(base + k)) != 1
  {
    assert F35X[6] == ReadSfr(0xBE);
    assert k < 6 ==> Acts(F35X[k]) && !IsRead(F35X[k]);
  }
}
