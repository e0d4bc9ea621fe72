/**
 * The editor mode of a variable's Value property: the host reports it as a
 * list of names and takes it back as a bit mask (1 ReadOnly, 2 Hidden). The
 * editor_mode setter turns the current names and the requested changes into
 * mask operations and folds them, starting from 0.
 */
module EditorModes {
  import opened Store

  /** One mask operation: `mode | bits` or `mode & bits`. */
  datatype Op = Or(bits: Mask) | And(bits: Mask)

  function ApplyOp(mode: Mask, op: Op): Mask {
    if op.Or? then mode | op.bits else mode & op.bits
  }

  /**
   * The operation of one mode name: "ReadOnly" and "Hidden" set their bit,
   * "-ReadOnly" and "-Hidden" clear it (`& ~1`, `& ~2`), and any other name
   * is `| 0`.
   */
  function OpOf(name: string): Op {
    if name == "ReadOnly" then Or(ReadOnlyBit)
    else if name == "Hidden" then Or(HiddenBit)
    else if name == "-ReadOnly" then And(HiddenBit)
    else if name == "-Hidden" then And(ReadOnlyBit)
    else Or(0)
  }

  function OpsOf(names: seq<string>): (r: seq<Op>)
    ensures |r| == |names| && forall k :: 0 <= k < |names| ==> r[k] == OpOf(names[k])
  {
    seq(|names|, k requires 0 <= k < |names| => OpOf(names[k]))
  }

  /** getEditorMode: the names of the bits set in the mask. */
  function ModeNames(mode: Mask): (r: seq<string>)
    ensures "ReadOnly" in r <==> (mode & ReadOnlyBit) != 0
    ensures "Hidden" in r <==> (mode & HiddenBit) != 0
  {
    (if (mode & ReadOnlyBit) != 0 then ["ReadOnly"] else []) +
    (if (mode & HiddenBit) != 0 then ["Hidden"] else [])
  }

  /** The loop of the setter: `mode = f(mode, v)` for each operation in turn. */
  function Fold(ops: seq<Op>, mode: Mask): Mask {
    if ops == [] then mode else ApplyOp(Fold(ops[..|ops| - 1], mode), ops[|ops| - 1])
  }

  /**
   * The mask the editor_mode setter stores: the operations of the current
   * names followed by those of the requested names, folded from 0.
   */
  function SetterMode(current: Mask, requests: seq<string>): Mask {
    Fold(OpsOf(ModeNames(current)) + OpsOf(requests), 0)
  }

  /** The loop of the editor_mode setter: each operation applied in turn to a mask starting from 0. */
  method NewMode(current: Mask, requests: seq<string>) returns (mode: Mask)
    ensures mode == SetterMode(current, requests)
  {
    var ops := OpsOf(ModeNames(current)) + OpsOf(requests);
    mode := 0;
    var i := 0;
    while i < |ops|
      invariant 0 <= i <= |ops|
      invariant mode == Fold(ops[..i], 0)
    {
      FoldNext(ops, i, 0);
      mode := ApplyOp(mode, ops[i]);
      i := i + 1;
    }
    assert ops[..i] == ops;
  }

  /** Folding one more operation of a list. */
  lemma FoldNext(ops: seq<Op>, i: nat, mode: Mask)
    requires i < |ops|
    ensures Fold(ops[..i + 1], mode) == ApplyOp(Fold(ops[..i], mode), ops[i])
  {
    assert ops[..i + 1][..i] == ops[..i];
  }

  /** The requests applied one after the other directly to a mask. */
  function ApplyRequests(mode: Mask, requests: seq<string>): Mask {
    if requests == [] then mode else ApplyOp(ApplyRequests(mode, requests[..|requests| - 1]), OpOf(requests[|requests| - 1]))
  }

  lemma {:induction false} FoldAppend(a: seq<Op>, b: seq<Op>, mode: Mask)
    ensures Fold(a + b, mode) == Fold(b, Fold(a, mode))
  {
    if b != [] {
      assert (a + b)[..|a + b| - 1] == a + b[..|b| - 1];
      FoldAppend(a, b[..|b| - 1], mode);
    } else {
      assert a + b == a;
    }
  }

  lemma {:induction false} FoldIsApplyRequests(requests: seq<string>, mode: Mask)
    ensures Fold(OpsOf(requests), mode) == ApplyRequests(mode, requests)
  {
    if requests != [] {
      assert OpsOf(requests)[..|requests| - 1] == OpsOf(requests[..|requests| - 1]);
      FoldIsApplyRequests(requests[..|requests| - 1], mode);
    }
  }

  /** Folding the operations of the current names from 0 rebuilds the current mask. */
  lemma ModeNamesRebuildMask(mode: Mask)
    ensures Fold(OpsOf(ModeNames(mode)), 0) == mode
  {
    var names := ModeNames(mode);
    var ops := OpsOf(names);
    if mode == 0 {
      assert ops == [];
    } else if mode == 1 {
      assert ops == [Or(ReadOnlyBit)];
      assert ops[..0] == [];
    } else if mode == 2 {
      assert ops == [Or(HiddenBit)];
      assert ops[..0] == [];
    } else {
      assert ops == [Or(ReadOnlyBit), Or(HiddenBit)];
      assert ops[..1] == [Or(ReadOnlyBit)];
      assert ops[..1][..0] == [];
    }
  }

  /** The setter amounts to applying the requests to the current mask. */
  lemma SetterModeSpec(current: Mask, requests: seq<string>)
    ensures SetterMode(current, requests) == ApplyRequests(current, requests)
  {
    FoldAppend(OpsOf(ModeNames(current)), OpsOf(requests), 0);
    ModeNamesRebuildMask(current);
    FoldIsApplyRequests(requests, current);
  }

  /** What the read_only setter requests. */
  function ReadOnlyRequest(ro: bool): string {
    if ro then "ReadOnly" else "-ReadOnly"
  }

  function HiddenRequest(conceal: bool): string {
    if conceal then "Hidden" else "-Hidden"
  }

  /**
   * The read_only setter: "ReadOnly" sets bit 1 and "-ReadOnly" clears it,
   * and an existing Hidden bit survives either way.
   */
  lemma ReadOnlySetter(current: Mask, ro: bool)
    ensures (SetterMode(current, [ReadOnlyRequest(ro)]) & ReadOnlyBit) != 0 <==> ro
    ensures (SetterMode(current, [ReadOnlyRequest(ro)]) & HiddenBit) == (current & HiddenBit)
  {
    SetterModeSpec(current, [ReadOnlyRequest(ro)]);
  }

  /** A name the setter does not know changes nothing. */
  lemma UnknownRequestsChangeNothing(current: Mask, requests: seq<string>)
    requires forall k :: 0 <= k < |requests| ==> OpOf(requests[k]) == Or(0)
    ensures SetterMode(current, requests) == current
  {
    SetterModeSpec(current, requests);
    UnknownRequestsIdle(current, requests);
  }

  lemma {:induction false} UnknownRequestsIdle(mode: Mask, requests: seq<string>)
    requires forall k :: 0 <= k < |requests| ==> OpOf(requests[k]) == Or(0)
    ensures ApplyRequests(mode, requests) == mode
  {
    if requests != [] {
      UnknownRequestsIdle(mode, requests[..|requests| - 1]);
    }
  }

  /** Setting and clearing one flag leaves the other flag as it was. */
  lemma HiddenRequests(current: Mask, conceal: bool)
    ensures (SetterMode(current, [HiddenRequest(conceal)]) & HiddenBit) != 0 <==> conceal
    ensures (SetterMode(current, [HiddenRequest(conceal)]) & ReadOnlyBit) == (current & ReadOnlyBit)
  {
    SetterModeSpec(current, [HiddenRequest(conceal)]);
  }
}
