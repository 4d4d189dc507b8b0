/**
  cw_conf_handler: finding the command for a directive in the module tables, and checking its
  terminator and the number of its arguments.
 */
module ConfDispatch {
  import opened Bytes
  import opened ConfGrammar

  const CONF_BLOCK: bv32 := 0x0000_0100
  const CONF_FLAG: bv32 := 0x0000_0200
  const CONF_ANY: bv32 := 0x0000_0400
  const CONF_1MORE: bv32 := 0x0000_0800
  const CONF_2MORE: bv32 := 0x0000_1000
  const DIRECT_CONF: bv32 := 0x0001_0000
  const MAIN_CONF: bv32 := 0x0100_0000
  const CONF_MODULE: nat := 0x464E_4F43
  const CONF_MAX_ARGS: nat := 8

  /** CW_CONF_NOARGS, CW_CONF_TAKE1, ... CW_CONF_TAKE7. */
  const ARGUMENT_NUMBER: seq<bv32> := [0x01, 0x02, 0x04, 0x08, 0x10, 0x20, 0x40, 0x80]

  datatype Command = Command(name: Bytes, kind: bv32, conf: nat)

  /** A module and its commands; the C table ends at the first empty name. */
  datatype Module = Module(kind: nat, index: nat, ctxIndex: nat, commands: seq<Command>)

  /**
    The parts of cw_conf_t the dispatcher reads. `filled` says at which offsets the array cf->ctx
    points to holds an address.
   */
  datatype Context = Context(moduleType: nat, cmdType: bv32, hasCtx: bool, filled: nat -> bool)

  /** The third argument of cmd->set: NULL, a slot of cf->ctx, its address, or a slot one step further. */
  datatype ConfArg = NoConf | Slot(index: nat) | AddressOfSlot(index: nat) | Indirect(conf: nat, ctxIndex: nat)

  datatype Verdict =
    | Call(m: nat, c: nat, conf: ConfArg)
    | NotTerminated(m: nat, c: nat)
    | NoBlock(m: nat, c: nat)
    | BadArity(m: nat, c: nat)
    | NotAllowedHere
    | Unknown

  // ---------------------------------------------------------------- strcmp

  /** The bytes up to the first NUL: all that strcmp sees. */
  function Cut(s: Bytes): Bytes {
    if s == [] || s[0] == NUL then [] else [s[0]] + Cut(s[1..])
  }

  /** The length test and cw_strcmp. */
  predicate SameName(name: Bytes, other: Bytes) {
    |name| == |other| && Cut(name) == Cut(other)
  }

  /** On table names, which hold no NUL, the two tests together are equality, even if the word holds one. */
  lemma {:induction false} SameNameIsEquality(name: Bytes, other: Bytes)
    requires NUL !in other
    ensures SameName(name, other) <==> name == other
    decreases |other|
  {
    if other != [] && |name| == |other| {
      assert other[0] in other && NUL !in other[1..];
      SameNameIsEquality(name[1..], other[1..]);
      CutTail(other);
      if name[0] != NUL {
        assert name == [name[0]] + name[1..] && other == [other[0]] + other[1..];
        assert Cut(name) == Cut(other) ==> Cut(name)[1..] == Cut(other)[1..] && Cut(name)[0] == Cut(other)[0];
        assert Cut(name)[1..] == Cut(name[1..]) && Cut(other)[1..] == Cut(other[1..]);
      }
    }
  }

  lemma {:induction false} CutTail(s: Bytes)
    requires NUL !in s
    ensures Cut(s) == s
    decreases |s|
  {
    if s != [] {
      assert s[0] in s;
      CutTail(s[1..]);
    }
  }

  // ---------------------------------------------------------------- what a command demands

  predicate Has(kind: bv32, mask: bv32) { kind & mask != 0 }

  /** The command is for this directive, in this place. */
  predicate Applies(mod: Module, cmd: Command, name: Bytes, cf: Context) {
    SameName(name, cmd.name) && (mod.kind == CONF_MODULE || mod.kind == cf.moduleType) && Has(cmd.kind, cf.cmdType)
  }

  /**
    The commands of a CONF module are for every module type, those of another module for its own
    type only; and a command is for the places its type has a bit in common with.
   */
  lemma WhereApplies(mod: Module, cmd: Command, name: Bytes, cf: Context)
    requires NUL !in cmd.name
    ensures Applies(mod, cmd, name, cf) <==>
            && name == cmd.name && Has(cmd.kind, cf.cmdType)
            && (mod.kind != 0x464E4F43 ==> mod.kind == cf.moduleType)
  {
    hide SameName, Has;
    SameNameIsEquality(name, cmd.name);
  }

  /** n counts the name. */
  predicate ArityOk(kind: bv32, n: nat)
    requires n >= 1
  {
    if Has(kind, CONF_ANY) then true
    else if Has(kind, CONF_FLAG) then n == 2
    else if Has(kind, CONF_1MORE) then n >= 2
    else if Has(kind, CONF_2MORE) then n >= 3
    else n <= CONF_MAX_ARGS && Has(kind, ARGUMENT_NUMBER[n - 1])
  }

  function ConfOf(mod: Module, cmd: Command, cf: Context): ConfArg {
    if Has(cmd.kind, DIRECT_CONF) then Slot(mod.index)
    else if Has(cmd.kind, MAIN_CONF) then AddressOfSlot(mod.index)
    else if cf.hasCtx && cf.filled(cmd.conf) then Indirect(cmd.conf, mod.ctxIndex)
    else NoConf
  }

  /** What becomes of the directive once its command is found. */
  function Judge(mod: Module, cmd: Command, m: nat, c: nat, cf: Context, n: nat, block: bool): Verdict
    requires n >= 1
  {
    if !Has(cmd.kind, CONF_BLOCK) && block then NotTerminated(m, c)
    else if Has(cmd.kind, CONF_BLOCK) && !block then NoBlock(m, c)
    else if !ArityOk(cmd.kind, n) then BadArity(m, c)
    else Call(m, c, ConfOf(mod, cmd, cf))
  }

  /**
    How many parameters behind the name a command takes, read off the bits of its type: 0x400 any
    number, 0x200 exactly one, 0x800 at least one, 0x1000 at least two, and otherwise k exactly when
    bit k of the lowest eight is set.
   */
  lemma ArityMeans(kind: bv32, name: Bytes, params: seq<Bytes>)
    ensures ArityOk(kind, |[name] + params|) <==>
            if kind & 0x400 != 0 then true
            else if kind & 0x200 != 0 then |params| == 1
            else if kind & 0x800 != 0 then params != []
            else if kind & 0x1000 != 0 then |params| >= 2
            else |params| <= 7 && (kind >> |params|) & 1 == 1
  {
    var k := |params|;
    if k <= 7 {
      assert k == 0 || k == 1 || k == 2 || k == 3 || k == 4 || k == 5 || k == 6 || k == 7;
      assert ARGUMENT_NUMBER[k] == (1 as bv32) << k;
    }
  }

  // ---------------------------------------------------------------- the order of the tables

  predicate At(mods: seq<Module>, m: nat, c: nat) {
    m < |mods| && c < |mods[m].commands|
  }

  predicate Earlier(m: nat, c: nat, m': nat, c': nat) {
    m < m' || (m == m' && c < c')
  }

  /** (m, c) is the first command in module and command order that applies. */
  ghost predicate FirstApplying(mods: seq<Module>, name: Bytes, cf: Context, m: nat, c: nat) {
    && At(mods, m, c) && Applies(mods[m], mods[m].commands[c], name, cf)
    && forall k: nat, l: nat :: At(mods, k, l) && Earlier(k, l, m, c) ==>
         !Applies(mods[k], mods[k].commands[l], name, cf)
  }

  ghost predicate NamedSomewhere(mods: seq<Module>, name: Bytes) {
    exists m: nat, c: nat :: At(mods, m, c) && SameName(name, mods[m].commands[c].name)
  }

  ghost predicate NoneApplies(mods: seq<Module>, name: Bytes, cf: Context) {
    forall m: nat, c: nat :: At(mods, m, c) ==> !Applies(mods[m], mods[m].commands[c], name, cf)
  }

  /** Every table ends before the first empty name. */
  predicate Tables(mods: seq<Module>) {
    forall m :: 0 <= m < |mods| ==> forall c :: 0 <= c < |mods[m].commands| ==> mods[m].commands[c].name != []
  }

  /**
    What a setter gets: with 0x10000 in the type what the slot of the module holds, with 0x1000000
    alone the address of that slot, and otherwise what stands one step further, or NULL.
   */
  ghost predicate Passes(mod: Module, cmd: Command, cf: Context, conf: ConfArg) {
    && (conf.Slot? <==> cmd.kind & 0x10000 != 0)
    && (conf.AddressOfSlot? <==> cmd.kind & 0x10000 == 0 && cmd.kind & 0x1000000 != 0)
    && (conf.Slot? || conf.AddressOfSlot? ==> conf.index == mod.index)
    && (conf.Indirect? ==> conf.conf == cmd.conf && conf.ctxIndex == mod.ctxIndex)
    && (conf.NoConf? ==> !cf.hasCtx || !cf.filled(cmd.conf))
    && (conf.Indirect? ==> cf.hasCtx && cf.filled(cmd.conf))
  }

  lemma ConfPasses(mod: Module, cmd: Command, cf: Context)
    ensures Passes(mod, cmd, cf, ConfOf(mod, cmd, cf))
  {
  }

  /** The checks of cw_conf_handler behind the search: terminator, then arity, then the configuration slot. */
  method JudgeCommand(mod: Module, cmd: Command, m: nat, c: nat, cf: Context, n: nat, block: bool) returns (v: Verdict)
    requires n >= 1
    ensures v == Judge(mod, cmd, m, c, cf, n, block)
    ensures v.NotTerminated? <==> block && !Has(cmd.kind, CONF_BLOCK)
    ensures v.NoBlock? <==> !block && Has(cmd.kind, CONF_BLOCK)
    ensures v.BadArity? <==> (Has(cmd.kind, CONF_BLOCK) <==> block) && !ArityOk(cmd.kind, n)
    ensures v.Call? <==> (Has(cmd.kind, CONF_BLOCK) <==> block) && ArityOk(cmd.kind, n)
    ensures v.Call? ==> v.m == m && v.c == c && Passes(mod, cmd, cf, v.conf)
  {
    hide Has, Passes, ConfOf;
    if !Has(cmd.kind, CONF_BLOCK) && block {
      return NotTerminated(m, c);
    }
    if Has(cmd.kind, CONF_BLOCK) && !block {
      return NoBlock(m, c);
    }
    if !Has(cmd.kind, CONF_ANY) {
      if Has(cmd.kind, CONF_FLAG) {
        if n != 2 {
          return BadArity(m, c);
        }
      } else if Has(cmd.kind, CONF_1MORE) {
        if n < 2 {
          return BadArity(m, c);
        }
      } else if Has(cmd.kind, CONF_2MORE) {
        if n < 3 {
          return BadArity(m, c);
        }
      } else if n > CONF_MAX_ARGS {
        return BadArity(m, c);
      } else if !Has(cmd.kind, ARGUMENT_NUMBER[n - 1]) {
        return BadArity(m, c);
      }
    }
    ConfPasses(mod, cmd, cf);
    v := Call(m, c, ConfOf(mod, cmd, cf));
  }

  /**
    cw_conf_handler up to the call of cmd->set: the first command that applies decides alone;
    without one, the answer tells whether the name is known at all.
   */
  method Handle(mods: seq<Module>, cf: Context, args: Args, block: bool) returns (v: Verdict)
    requires args != [] && Tables(mods)
    ensures forall m: nat, c: nat :: FirstApplying(mods, args[0], cf, m, c) ==>
              v == Judge(mods[m], mods[m].commands[c], m, c, cf, |args|, block)
    ensures NoneApplies(mods, args[0], cf) ==> v == if NamedSomewhere(mods, args[0]) then NotAllowedHere else Unknown
    ensures (exists m: nat, c: nat :: FirstApplying(mods, args[0], cf, m, c)) || NoneApplies(mods, args[0], cf)
  {
    hide Has, SameName, Judge;
    var name := args[0];
    var found := false;
    var i := 0;
    while i < |mods|
      invariant i <= |mods|
      invariant forall k: nat, l: nat :: At(mods, k, l) && k < i ==> !Applies(mods[k], mods[k].commands[l], name, cf)
      invariant found <==> exists k: nat, l: nat :: At(mods, k, l) && k < i && SameName(name, mods[k].commands[l].name)
    {
      var commands := mods[i].commands;
      var j := 0;
      while j < |commands|
        invariant j <= |commands|
        invariant forall k: nat, l: nat :: At(mods, k, l) && Earlier(k, l, i, j) ==>
                    !Applies(mods[k], mods[k].commands[l], name, cf)
        invariant found <==> exists k: nat, l: nat ::
                    At(mods, k, l) && Earlier(k, l, i, j) && SameName(name, mods[k].commands[l].name)
      {
        var cmd := commands[j];
        assert At(mods, i, j);
        if SameName(name, cmd.name) {
          found := true;
          if (mods[i].kind == CONF_MODULE || mods[i].kind == cf.moduleType) && Has(cmd.kind, cf.cmdType) {
            assert FirstApplying(mods, name, cf, i, j);
            OnlyOneFirst(mods, name, cf, i, j);
            v := JudgeCommand(mods[i], cmd, i, j, cf, |args|, block);
            return;
          }
        }
        j := j + 1;
      }
      i := i + 1;
    }
    v := if found then NotAllowedHere else Unknown;
  }

  lemma OnlyOneFirst(mods: seq<Module>, name: Bytes, cf: Context, m: nat, c: nat)
    requires FirstApplying(mods, name, cf, m, c)
    ensures forall k: nat, l: nat :: FirstApplying(mods, name, cf, k, l) ==> k == m && l == c
    ensures !NoneApplies(mods, name, cf)
  {
    hide Applies;
    forall k: nat, l: nat | FirstApplying(mods, name, cf, k, l) ensures k == m && l == c {
      assert !Earlier(k, l, m, c) && !Earlier(m, c, k, l);
    }
  }
}
