/** Programmable transactions that evaluate an access policy: which ones are accepted, and the
    staleness check that the key server puts in front of them. */
module Ptb {
  import opened Bytes
  import opened Results

  type U16 = n: nat | n <= U16_MAX

  datatype CallArg =
    | Pure(bytes: seq<Byte>)
    | SharedObject(id: ObjectId, initialVersion: nat, mutable: bool)
    | OtherObject(reference: seq<Byte>)

  datatype Argument = GasCoin | Input(index: U16) | ResultOf(command: U16) | NestedResult(command: U16, result: U16)

  datatype Command =
    | MoveCall(package: ObjectId, moduleName: string, functionName: string, typeArguments: seq<string>,
               arguments: seq<Argument>)
    | OtherCommand(description: string)

  datatype Transaction = Transaction(inputs: seq<CallArg>, commands: seq<Command>)

  // ----- Acceptance

  const MAX_COMMANDS: nat := 100

  function InvalidPtb<T>(reason: string): Result<T> { Err(GeneralError(reason)) }

  /** The key id is the first argument of a call, decoded from its bytes. */
  function GetKeyId(decode: seq<Byte> -> Option<KeyId>, inputs: seq<CallArg>, call: Command): Result<KeyId>
    requires call.MoveCall?
  {
    if |call.arguments| == 0 then InvalidPtb("Empty args")
    else
      match call.arguments[0]
      case Input(i) =>
        if i < |inputs| && inputs[i].Pure? then
          (match decode(inputs[i].bytes)
           case Some(id) => Ok(id)
           case None => InvalidPtb("Invalid BCS for first parameter for seal_approve"))
        else InvalidPtb("Invalid first parameter for seal_approve")
      case _ => InvalidPtb("Invalid index for first argument")
  }

  /** Exactly when a call has a key id, and which. */
  lemma KeyIdOutcome(decode: seq<Byte> -> Option<KeyId>, inputs: seq<CallArg>, call: Command, id: KeyId)
    requires call.MoveCall?
    ensures GetKeyId(decode, inputs, call) == Ok(id) <==>
      exists i: U16, bytes ::
        && |call.arguments| > 0 && call.arguments[0] == Input(i)
        && i < |inputs| && inputs[i] == Pure(bytes) && decode(bytes) == Some(id)
  {
    if GetKeyId(decode, inputs, call) == Ok(id) {
      var i := call.arguments[0].index;
      assert call.arguments[0] == Input(i) && inputs[i] == Pure(inputs[i].bytes);
    }
  }

  ghost predicate AcceptableCall(decode: seq<Byte> -> Option<KeyId>, inputs: seq<CallArg>, package: ObjectId,
                                 command: Command) {
    && command.MoveCall?
    && (forall i :: 0 <= i < |command.arguments| ==> command.arguments[i].Input?)
    && GetKeyId(decode, inputs, command).Ok?
    && "seal_approve" <= command.functionName
    && command.package == package
  }

  /** Between one and 100 calls of seal_approve functions of one package, on inputs only. */
  ghost predicate Acceptable(decode: seq<Byte> -> Option<KeyId>, ptb: Transaction) {
    && 0 < |ptb.commands| <= MAX_COMMANDS
    && |ptb.inputs| > 0
    && ptb.commands[0].MoveCall?
    && forall i :: 0 <= i < |ptb.commands| ==>
         AcceptableCall(decode, ptb.inputs, ptb.commands[0].package, ptb.commands[i])
  }

  method TryFrom(decode: seq<Byte> -> Option<KeyId>, ptb: Transaction) returns (r: Result<Transaction>)
    ensures r.Ok? <==> Acceptable(decode, ptb)
    ensures r.Ok? ==> r.value == ptb
  {
    if |ptb.commands| > MAX_COMMANDS {
      return InvalidPtb("Too many commands in PTB (more than 100)");
    }
    if |ptb.inputs| == 0 || |ptb.commands| == 0 {
      return InvalidPtb("Empty PTB input or command");
    }
    if !ptb.commands[0].MoveCall? {
      return InvalidPtb("Invalid first command");
    }
    var package := ptb.commands[0].package;
    for i := 0 to |ptb.commands|
      invariant forall j :: 0 <= j < i ==> AcceptableCall(decode, ptb.inputs, package, ptb.commands[j])
    {
      var command := ptb.commands[i];
      if !command.MoveCall? {
        return InvalidPtb("Non MoveCall command");
      }
      for k := 0 to |command.arguments|
        invariant forall j :: 0 <= j < k ==> command.arguments[j].Input?
      {
        if !command.arguments[k].Input? {
          return InvalidPtb("Only pure inputs are allowed");
        }
      }
      var id := GetKeyId(decode, ptb.inputs, command);
      if id.Err? {
        return Err(id.error);
      }
      if !("seal_approve" <= command.functionName) || command.package != package {
        return InvalidPtb("Invalid function or package id");
      }
    }
    return Ok(ptb);
  }

  /** What is accepted, call by call: between one and 100 calls, all of one package, all named with the
      prefix, all on inputs only, each with a pure first input in range that decodes to an id. */
  lemma AcceptedTransactions(decode: seq<Byte> -> Option<KeyId>, ptb: Transaction)
    ensures Acceptable(decode, ptb) <==>
      && 1 <= |ptb.commands| <= 100 && |ptb.inputs| >= 1
      && (forall i :: 0 <= i < |ptb.commands| ==>
            && ptb.commands[i].MoveCall? && ptb.commands[0].MoveCall?
            && ptb.commands[i].package == ptb.commands[0].package
            && |ptb.commands[i].functionName| >= 12 && ptb.commands[i].functionName[..12] == "seal_approve"
            && (forall j :: 0 <= j < |ptb.commands[i].arguments| ==> ptb.commands[i].arguments[j].Input?)
            && exists id :: GetKeyId(decode, ptb.inputs, ptb.commands[i]) == Ok(id))
  {
    forall i | 0 <= i < |ptb.commands| && ptb.commands[i].MoveCall?
      ensures GetKeyId(decode, ptb.inputs, ptb.commands[i]).Ok?
         <==> exists id :: GetKeyId(decode, ptb.inputs, ptb.commands[i]) == Ok(id)
      ensures "seal_approve" <= ptb.commands[i].functionName
         <==> |ptb.commands[i].functionName| >= 12 && ptb.commands[i].functionName[..12] == "seal_approve"
    {
      var r := GetKeyId(decode, ptb.inputs, ptb.commands[i]);
      assert r.Ok? ==> r == Ok(r.value);
    }
  }

  function InnerId(decode: seq<Byte> -> Option<KeyId>, ptb: Transaction, i: nat): KeyId
    requires Acceptable(decode, ptb) && i < |ptb.commands|
  {
    assert AcceptableCall(decode, ptb.inputs, ptb.commands[0].package, ptb.commands[i]);
    GetKeyId(decode, ptb.inputs, ptb.commands[i]).value
  }

  /** The ids requested by an accepted transaction, one for each call; none is missing. */
  function InnerIds(decode: seq<Byte> -> Option<KeyId>, ptb: Transaction): (ids: seq<KeyId>)
    requires Acceptable(decode, ptb)
    ensures |ids| == |ptb.commands|
    ensures forall i :: 0 <= i < |ids| ==>
      var argument := ptb.commands[i].arguments[0];
      argument.Input? && argument.index < |ptb.inputs| && ptb.inputs[argument.index].Pure?
      && decode(ptb.inputs[argument.index].bytes) == Some(ids[i])
  {
    seq(|ptb.commands|, i requires 0 <= i < |ptb.commands| => InnerId(decode, ptb, i))
  }

  function FullIds(decode: seq<Byte> -> Option<KeyId>, ptb: Transaction, firstPackageId: ObjectId): (ids: seq<KeyId>)
    requires Acceptable(decode, ptb)
    ensures |ids| == |ptb.commands|
  {
    var inner := InnerIds(decode, ptb);
    seq(|inner|, i requires 0 <= i < |inner| => firstPackageId + inner[i])
  }

  /** The full ids determine the package and the inner ids. */
  lemma FullIdsInjective(decode: seq<Byte> -> Option<KeyId>, ptb: Transaction, packageId: ObjectId, ptb': Transaction,
                         packageId': ObjectId)
    requires Acceptable(decode, ptb) && Acceptable(decode, ptb')
    requires FullIds(decode, ptb, packageId) == FullIds(decode, ptb', packageId')
    ensures packageId == packageId' && InnerIds(decode, ptb) == InnerIds(decode, ptb')
  {
    var ids, ids' := InnerIds(decode, ptb), InnerIds(decode, ptb');
    assert |ids| == |FullIds(decode, ptb, packageId)| == |FullIds(decode, ptb', packageId')| == |ids'|;
    forall i | 0 <= i < |ids| ensures packageId == packageId' && ids[i] == ids'[i] {
      assert FullIds(decode, ptb, packageId)[i] == FullIds(decode, ptb', packageId')[i];
      ConcatInjective(packageId, ids[i], packageId', ids'[i]);
    }
    assert ids[0] == ids'[0];
  }

  // ----- The staleness check

  const CLOCK_ID: ObjectId :=
    [0, 0, 0, 0, 0, 0, 0, 0, 0, 0, 0, 0, 0, 0, 0, 0, 0, 0, 0, 0, 0, 0, 0, 0, 0, 0, 0, 0, 0, 0, 0, 6]
  const CLOCK_IMMUTABLE: CallArg := SharedObject(CLOCK_ID, 1, false)

  function U64Argument(n: nat): CallArg { Pure(LittleEndian(n, 8)) }

  /** The arguments of the check are eight bytes, lowest first, of the time and of the allowance. */
  lemma U64ArgumentDecodes(n: nat)
    requires n < 0x1_0000_0000_0000_0000
    ensures U64Argument(n).Pure? && |U64Argument(n).bytes| == 8 && Decoded(U64Argument(n).bytes) == n
  {
    LittleEndianDecodes(n, 8);
    Pow256Of8();
    SmallRemainder(n, Pow256(8));
  }

  lemma SmallRemainder(n: nat, m: nat)
    requires n < m
    ensures n % m == n
  {
  }

  lemma Pow256Of8()
    ensures Pow256(8) == 0x1_0000_0000_0000_0000
  {
    assert Pow256(2) == 0x1_0000;
    assert Pow256(4) == 0x1_0000_0000;
    assert Pow256(6) == 0x1_0000_0000_0000;
  }

  /** The inserted clock is the shared object 0x6, from its first version, not mutable; it is inserted
      last, exactly when there is no clock yet. */
  lemma InsertedClock(inputs: seq<CallArg>, now: nat, allowed: nat)
    ensures
      var all := ExtendedInputs(inputs, now, allowed);
      && (|all| == |inputs| + 3 <==> forall i :: 0 <= i < |inputs| ==> !IsClock(inputs[i]))
      && (|all| == |inputs| + 3 || |all| == |inputs| + 2)
      && (|all| == |inputs| + 3 ==>
           var clock := all[|inputs| + 2];
           && clock.SharedObject? && clock.initialVersion == 1 && !clock.mutable
           && clock.id[31] == 6 && forall k :: 0 <= k < 31 ==> clock.id[k] == 0)
  {
    assert CLOCK_ID[31] == 6 && forall k :: 0 <= k < 31 ==> CLOCK_ID[k] == 0;
  }

  predicate IsClock(argument: CallArg) {
    argument.SharedObject? && argument.id == CLOCK_ID
  }

  /** The position of the first clock, or the number of inputs if there is none. */
  function ClockPosition(inputs: seq<CallArg>): (n: nat)
    ensures n <= |inputs|
    ensures n < |inputs| ==> IsClock(inputs[n])
    ensures forall i :: 0 <= i < n ==> !IsClock(inputs[i])
  {
    if |inputs| == 0 || IsClock(inputs[0]) then 0 else 1 + ClockPosition(inputs[1..])
  }

  /** The inputs with the time, the allowed staleness and, unless there is one already, the clock. */
  function ExtendedInputs(inputs: seq<CallArg>, now: nat, allowed: nat): seq<CallArg> {
    inputs + [U64Argument(now), U64Argument(allowed)] + (if ClockPosition(inputs) < |inputs| then []
                                                         else [CLOCK_IMMUTABLE])
  }

  function CheckCommand(sealPackage: ObjectId, now: U16, allowed: U16, clock: U16): Command {
    MoveCall(sealPackage, "time", "check_staleness", [], [Input(now), Input(allowed), Input(clock)])
  }

  /** Where the check finds the clock. */
  function Clock(inputs: seq<CallArg>): nat {
    if ClockPosition(inputs) < |inputs| then ClockPosition(inputs) else |inputs| + 2
  }

  /** The transaction with the check in front. */
  function Checked(ptb: Transaction, sealPackage: ObjectId, now: nat, allowed: nat): Transaction
    requires |ExtendedInputs(ptb.inputs, now, allowed)| <= U16_MAX + 1
  {
    var n := |ptb.inputs|;
    Transaction(ExtendedInputs(ptb.inputs, now, allowed),
                [CheckCommand(sealPackage, n, n + 1, Clock(ptb.inputs))] + ptb.commands)
  }

  /** The transaction while the server extends it: inputs are pushed and commands inserted in place. */
  class Extension {
    var inputs: seq<CallArg>
    var commands: seq<Command>

    constructor (ptb: Transaction)
      ensures inputs == ptb.inputs && commands == ptb.commands
    {
      inputs, commands := ptb.inputs, ptb.commands;
    }

    method TryAddArgument(argument: CallArg) returns (r: Result<Argument>)
      modifies this`inputs
      ensures inputs == old(inputs) + [argument]
      ensures r == ArgumentFromInputIndex(|old(inputs)|)
    {
      inputs := inputs + [argument];
      r := ArgumentFromInputIndex(|inputs| - 1);
    }

    method AddStalenessCheck(sealPackage: ObjectId, now: nat, allowed: nat) returns (r: Result<Transaction>)
      modifies this
      ensures r.Ok? <==> |ExtendedInputs(old(inputs), now, allowed)| <= U16_MAX + 1
      ensures r.Ok? ==>
        && r.value == Transaction(inputs, commands)
        && r.value == Checked(Transaction(old(inputs), old(commands)), sealPackage, now, allowed)
    {
      ghost var before := inputs;
      var nowArgument := TryAddArgument(U64Argument(now));
      if nowArgument.Err? {
        return Err(nowArgument.error);
      }
      var allowedArgument := TryAddArgument(U64Argument(allowed));
      if allowedArgument.Err? {
        return Err(allowedArgument.error);
      }
      ClockAfterPushing(before, now, allowed);
      assert inputs == before + [U64Argument(now), U64Argument(allowed)];
      var position := ClockPosition(inputs);
      var clock: Result<Argument>;
      if position < |inputs| {
        clock := ArgumentFromInputIndex(position);
      } else {
        clock := TryAddArgument(CLOCK_IMMUTABLE);
      }
      if clock.Err? {
        return Err(clock.error);
      }
      var check := MoveCall(sealPackage, "time", "check_staleness", [],
                            [nowArgument.value, allowedArgument.value, clock.value]);
      commands := [check] + commands;
      return Ok(Transaction(inputs, commands));
    }
  }

  function ArgumentFromInputIndex(i: nat): Result<Argument> {
    if i <= U16_MAX then Ok(Input(i)) else InvalidPtb("Index out of bounds")
  }

  lemma {:induction false} ClockAfterPushing(inputs: seq<CallArg>, now: nat, allowed: nat)
    ensures ClockPosition(inputs + [U64Argument(now), U64Argument(allowed)]) ==
      if ClockPosition(inputs) < |inputs| then ClockPosition(inputs) else |inputs| + 2
  {
    var pushed := inputs + [U64Argument(now), U64Argument(allowed)];
    if |inputs| == 0 {
      assert pushed == [U64Argument(now), U64Argument(allowed)];
      assert pushed[1..] == [U64Argument(allowed)] && pushed[1..][1..] == [];
    } else if !IsClock(inputs[0]) {
      ClockAfterPushing(inputs[1..], now, allowed);
      assert pushed[1..] == inputs[1..] + [U64Argument(now), U64Argument(allowed)];
    }
  }

  // ----- What a transaction means

  /** What an argument stands for: an input or a command whose result is used, where there is one. */
  datatype Resolved =
    | Gas
    | Value(input: CallArg)
    | FromCommand(command: Command, result: Option<U16>)
    | Dangling

  /** A call with its arguments replaced by what they stand for. */
  datatype ResolvedCall = ResolvedCall(package: ObjectId, moduleName: string, functionName: string,
                                       typeArguments: seq<string>,
                                       arguments: seq<Resolved>)

  function Resolve(ptb: Transaction, argument: Argument): Resolved {
    match argument
    case GasCoin => Gas
    case Input(i) => if i < |ptb.inputs| then Value(ptb.inputs[i]) else Dangling
    case ResultOf(c) => if c < |ptb.commands| then FromCommand(ptb.commands[c], None) else Dangling
    case NestedResult(c, k) => if c < |ptb.commands| then FromCommand(ptb.commands[c], Some(k)) else Dangling
  }

  function ResolveCall(ptb: Transaction, call: Command): ResolvedCall
    requires call.MoveCall?
  {
    ResolvedCall(call.package, call.moduleName, call.functionName, call.typeArguments,
                 seq(|call.arguments|, i requires 0 <= i < |call.arguments| => Resolve(ptb, call.arguments[i])))
  }

  ghost predicate OnlyCalls(ptb: Transaction) {
    forall i :: 0 <= i < |ptb.commands| ==> ptb.commands[i].MoveCall?
  }

  function Meaning(ptb: Transaction): seq<ResolvedCall>
    requires OnlyCalls(ptb)
  {
    seq(|ptb.commands|, i requires 0 <= i < |ptb.commands| => ResolveCall(ptb, ptb.commands[i]))
  }

  ghost predicate Refers(call: Command, lo: nat, hi: nat)
    requires call.MoveCall?
  {
    exists j :: 0 <= j < |call.arguments| && call.arguments[j].Input? && lo <= call.arguments[j].index < hi
  }

  /** No argument refers beyond the inputs into the positions that the check adds. */
  ghost predicate Undisturbed(ptb: Transaction, added: nat)
    requires OnlyCalls(ptb)
  {
    forall i :: 0 <= i < |ptb.commands| ==> !Refers(ptb.commands[i], |ptb.inputs|, |ptb.inputs| + added)
  }

  /** Appending inputs and inserting commands keeps what a call on inputs stands for, if and only if
      it refers to none of the appended inputs. Results of commands would be shifted. */
  lemma ResolveCallExtended(ptb: Transaction, extended: Transaction, call: Command)
    requires call.MoveCall? && forall j :: 0 <= j < |call.arguments| ==> call.arguments[j].Input?
    requires ptb.inputs <= extended.inputs
    ensures ResolveCall(extended, call) == ResolveCall(ptb, call) <==> !Refers(call, |ptb.inputs|, |extended.inputs|)
  {
    var before, after := ResolveCall(ptb, call).arguments, ResolveCall(extended, call).arguments;
    forall j | 0 <= j < |call.arguments|
      ensures after[j] == before[j] <==> !(|ptb.inputs| <= call.arguments[j].index < |extended.inputs|)
    {
    }
    if !Refers(call, |ptb.inputs|, |extended.inputs|) {
      assert after == before;
    }
  }

  /** The staleness check comes first and sees the time, the allowed staleness and the clock, an
      existing clock being reused; the calls after it are those of the transaction, in order; and
      they keep their resolved arguments exactly when none of them refers to a position between the
      end of the old and the end of the new inputs, which acceptance rules out for first arguments
      only. */
  lemma StalenessCheckMeaning(decode: seq<Byte> -> Option<KeyId>, ptb: Transaction, sealPackage: ObjectId, now: nat,
                              allowed: nat)
    requires Acceptable(decode, ptb)
    requires |ExtendedInputs(ptb.inputs, now, allowed)| <= U16_MAX + 1
    ensures
      var r := Checked(ptb, sealPackage, now, allowed);
      var clock := if ClockPosition(ptb.inputs) < |ptb.inputs| then ptb.inputs[ClockPosition(ptb.inputs)]
          else CLOCK_IMMUTABLE;
      && OnlyCalls(ptb) && OnlyCalls(r)
      && ptb.inputs <= r.inputs
      && IsClock(clock)
      && Meaning(r)[0] == ResolvedCall(sealPackage, "time", "check_staleness", [],
                                       [Value(U64Argument(now)), Value(U64Argument(allowed)), Value(clock)])
      && r.commands[1..] == ptb.commands
      && (Meaning(r)[1..] == Meaning(ptb) <==> Undisturbed(ptb, |r.inputs| - |ptb.inputs|))
  {
    var r := Checked(ptb, sealPackage, now, allowed);
    forall i | 0 <= i < |ptb.commands|
      ensures AcceptableCall(decode, ptb.inputs, ptb.commands[0].package, ptb.commands[i]) {
    }
    forall i | 0 <= i < |r.commands| ensures r.commands[i].MoveCall? {
      assert i > 0 ==> r.commands[i] == ptb.commands[i - 1];
    }
    CheckResolves(ptb, sealPackage, now, allowed);
    var after, before := Meaning(r)[1..], Meaning(ptb);
    forall i | 0 <= i < |before|
      ensures after[i] == before[i] <==> !Refers(ptb.commands[i], |ptb.inputs|, |r.inputs|)
    {
      ResolveCallExtended(ptb, r, ptb.commands[i]);
    }
    if Undisturbed(ptb, |r.inputs| - |ptb.inputs|) {
      assert after == before;
    }
  }

  lemma CheckResolves(ptb: Transaction, sealPackage: ObjectId, now: nat, allowed: nat)
    requires |ExtendedInputs(ptb.inputs, now, allowed)| <= U16_MAX + 1
    ensures
      var n := |ptb.inputs|;
      var clock := if ClockPosition(ptb.inputs) < n then ptb.inputs[ClockPosition(ptb.inputs)] else CLOCK_IMMUTABLE;
      ResolveCall(Checked(ptb, sealPackage, now, allowed), CheckCommand(sealPackage, n, n + 1, Clock(ptb.inputs)))
      == ResolvedCall(sealPackage, "time", "check_staleness", [],
                      [Value(U64Argument(now)), Value(U64Argument(allowed)), Value(clock)])
  {
    var n, all := |ptb.inputs|, ExtendedInputs(ptb.inputs, now, allowed);
    assert all[n] == U64Argument(now) && all[n + 1] == U64Argument(allowed);
    assert all[Clock(ptb.inputs)] == if ClockPosition(ptb.inputs) < n then ptb.inputs[ClockPosition(ptb.inputs)]
        else CLOCK_IMMUTABLE;
  }

  /** Acceptance alone is not enough: whatever the decoder and the bytes of an id, this transaction is
      accepted, its second argument refers to nothing, and with the check in front it refers to the
      time. */
  lemma AcceptedButDisturbed(decode: seq<Byte> -> Option<KeyId>, bytes: seq<Byte>, packageId: ObjectId,
                             sealPackage: ObjectId, now: nat, allowed: nat)
    requires decode(bytes).Some?
    ensures
      var ptb := Transaction([Pure(bytes)], [MoveCall(packageId, "policy", "seal_approve", [], [Input(0), Input(1)])]);
      && Acceptable(decode, ptb)
      && |ExtendedInputs(ptb.inputs, now, allowed)| <= U16_MAX + 1
      && Resolve(ptb, ptb.commands[0].arguments[1]) == Dangling
      && Resolve(Checked(ptb, sealPackage, now, allowed),
                 Checked(ptb, sealPackage, now, allowed).commands[1].arguments[1])
         == Value(U64Argument(now))
  {
    var ptb := Transaction([Pure(bytes)], [MoveCall(packageId, "policy", "seal_approve", [], [Input(0), Input(1)])]);
    assert AcceptableCall(decode, ptb.inputs, packageId, ptb.commands[0]);
    assert ExtendedInputs(ptb.inputs, now, allowed)[1] == U64Argument(now);
  }
}
