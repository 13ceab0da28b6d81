/** What `refresh` and `execute` promise, stated over the functions that specify them. */
module CommandProperties {
  import opened Wrappers
  import Utils
  import opened Command

  /** A document in which every present direction attribute is a supported, non-default
      value: the default is never stored, its absence stands for it. */
  predicate DirectionsNormal(bs: seq<Block>)
  {
    forall i :: 0 <= i < |bs| && bs[i].direction.Some? ==>
      Utils.IsSupported(bs[i].direction.value) && !Utils.IsDefault(bs[i].direction.value)
  }

  /** With nothing selected the command is disabled and shows the default direction. */
  lemma RefreshEmptySelection(bs: seq<Block>)
    ensures RefreshState(bs, []) == CommandState(false, "ltr")
  {
  }

  /** The command is enabled exactly when the first selected block exists and is
      eligible; the value is that block's attribute when enabled and present, otherwise
      `ltr`. An enabled command looks at the same block `execute` compares against. */
  lemma RefreshFirstBlock(bs: seq<Block>, sel: seq<nat>)
    requires SelectionWellFormed(|bs|, sel)
    ensures RefreshState(bs, sel).isEnabled <==> |sel| > 0 && bs[sel[0]].eligible
    ensures RefreshState(bs, sel).value ==
      if RefreshState(bs, sel).isEnabled && bs[sel[0]].direction.Some? then bs[sel[0]].direction.value else "ltr"
    ensures RefreshState(bs, sel).isEnabled ==>
      EligibleIndices(bs, sel) != [] && EligibleIndices(bs, sel)[0] == sel[0] && FirstEligible(bs, sel) == bs[sel[0]]
  {
    if |sel| > 0 && bs[sel[0]].eligible {
      assert sel == [sel[0]] + sel[1..];
      Seqs.FilterConcat((i: nat) => i < |bs| && CanBeAligned(bs[i]), [sel[0]], sel[1..]);
    }
  }

  /** Blocks after the first selected one play no part in `refresh`. */
  lemma RefreshIgnoresLaterBlocks(bs: seq<Block>, sel: seq<nat>, bs': seq<Block>, sel': seq<nat>)
    requires SelectionWellFormed(|bs|, sel) && SelectionWellFormed(|bs'|, sel')
    requires |sel| > 0 && |sel'| > 0 && bs[sel[0]] == bs'[sel'[0]]
    ensures RefreshState(bs, sel) == RefreshState(bs', sel')
  {
  }

  /** In a normal document the command's value is always a supported direction, and it is
      `ltr` exactly when the command is disabled or the first block carries no attribute. */
  lemma RefreshValueSupported(bs: seq<Block>, sel: seq<nat>)
    requires SelectionWellFormed(|bs|, sel) && DirectionsNormal(bs)
    ensures Utils.IsSupported(RefreshState(bs, sel).value)
    ensures RefreshState(bs, sel).value == "ltr" <==>
      !RefreshState(bs, sel).isEnabled || bs[sel[0]].direction == None
  {
    if |sel| > 0 {
      assert 0 <= sel[0] < |bs|;
    }
  }

  /** An enabled command can always be executed. */
  lemma EnabledImpliesExecutable(bs: seq<Block>, sel: seq<nat>, value: Option<string>)
    requires SelectionWellFormed(|bs|, sel) && RefreshState(bs, sel).isEnabled
    ensures ExecuteOn(bs, sel, value).Success?
  {
    RefreshFirstBlock(bs, sel);
  }

  /** Which of two selected blocks `execute` works on. */
  lemma TwoBlockEligibility(bs: seq<Block>)
    requires |bs| == 2
    ensures EligibleIndices(bs, [0, 1]) == (if bs[0].eligible then [0] else []) + (if bs[1].eligible then [1] else [])
  {
    var p := (i: nat) => i < |bs| && CanBeAligned(bs[i]);
    assert [0][1..] == [] && [1][1..] == [];
    assert Seqs.Filter(p, [0]) == if bs[0].eligible then [0] else [];
    assert Seqs.Filter(p, [1]) == if bs[1].eligible then [1] else [];
    assert [0, 1] == [0] + [1];
    Seqs.FilterConcat(p, [0], [1]);
  }

  /** A disabled command may still be executable: here the first selected block is not
      eligible but the second one is, and `execute` sets the attribute on the second. */
  lemma DisabledButExecutable()
    ensures var bs := [Block(false, None), Block(true, None)];
      && !RefreshState(bs, [0, 1]).isEnabled
      && ExecuteOn(bs, [0, 1], Some("rtl")) == Success([Block(false, None), Block(true, Some("rtl"))])
  {
    var bs := [Block(false, None), Block(true, None)];
    TwoBlockEligibility(bs);
    assert EligibleIndices(bs, [0, 1]) == [1];
    var w := WithDirection(bs, [1], Some("rtl"));
    assert w[0] == bs[0] && w[1] == Block(true, Some("rtl"));
    assert w == [Block(false, None), Block(true, Some("rtl"))];
    assert ExecuteOn(bs, [0, 1], Some("rtl")) == Success(w);
  }

  /** `execute` fails exactly when no selected block is eligible. */
  lemma ExecuteFailsIffNoEligible(bs: seq<Block>, sel: seq<nat>, value: Option<string>)
    requires SelectionWellFormed(|bs|, sel)
    ensures ExecuteOn(bs, sel, value).Failure? <==> forall k :: 0 <= k < |sel| ==> !bs[sel[k]].eligible
  {
    var e := EligibleIndices(bs, sel);
    if e != [] {
      assert e[0] in e;
    } else {
      forall k | 0 <= k < |sel| ensures !bs[sel[k]].eligible {
        assert sel[k] in sel;
      }
    }
  }

  /** `execute` never changes which blocks are eligible, nor any block outside the
      eligible part of the selection. */
  lemma ExecuteFrame(bs: seq<Block>, sel: seq<nat>, value: Option<string>)
    requires ExecuteOn(bs, sel, value).Success?
    ensures var out := ExecuteOn(bs, sel, value).value;
      && |out| == |bs|
      && (forall i :: 0 <= i < |bs| ==> out[i].eligible == bs[i].eligible)
      && (forall i :: 0 <= i < |bs| && (i !in sel || !bs[i].eligible) ==> out[i] == bs[i])
  {
  }

  /** With no value, the empty value, the default or the current value of the first eligible
      block, `execute` removes the attribute from every eligible selected block. */
  lemma ExecuteRemoves(bs: seq<Block>, sel: seq<nat>, value: Option<string>)
    requires SelectionWellFormed(|bs|, sel)
    requires EligibleIndices(bs, sel) != []
    requires value == None || value == Some("") || value == Some("ltr") || value == FirstEligible(bs, sel).direction
    ensures ExecuteOn(bs, sel, value).Success?
    ensures forall k :: 0 <= k < |sel| && bs[sel[k]].eligible ==>
      ExecuteOn(bs, sel, value).value[sel[k]] == bs[sel[k]].(direction := None)
  {
    var out := ExecuteOn(bs, sel, value).value;
    forall k | 0 <= k < |sel| && bs[sel[k]].eligible ensures out[sel[k]] == bs[sel[k]].(direction := None) {
      assert sel[k] in sel;
    }
  }

  /** Any other value, supported or not, is written as is on every eligible selected block. */
  lemma ExecuteSets(bs: seq<Block>, sel: seq<nat>, x: string)
    requires SelectionWellFormed(|bs|, sel)
    requires EligibleIndices(bs, sel) != []
    requires x != "" && x != "ltr" && FirstEligible(bs, sel).direction != Some(x)
    ensures ExecuteOn(bs, sel, Some(x)).Success?
    ensures forall k :: 0 <= k < |sel| && bs[sel[k]].eligible ==>
      ExecuteOn(bs, sel, Some(x)).value[sel[k]] == bs[sel[k]].(direction := Some(x))
  {
    var out := ExecuteOn(bs, sel, Some(x)).value;
    forall k | 0 <= k < |sel| && bs[sel[k]].eligible ensures out[sel[k]] == bs[sel[k]].(direction := Some(x)) {
      assert sel[k] in sel;
    }
  }

  /** Requesting the current value of the first eligible block is the same as requesting
      nothing, and so are the empty value and the default. */
  lemma ExecuteCurrentValueIsRemoval(bs: seq<Block>, sel: seq<nat>)
    requires EligibleIndices(bs, sel) != []
    ensures ExecuteOn(bs, sel, FirstEligible(bs, sel).direction) == ExecuteOn(bs, sel, None)
    ensures ExecuteOn(bs, sel, Some("")) == ExecuteOn(bs, sel, None)
    ensures ExecuteOn(bs, sel, Some("ltr")) == ExecuteOn(bs, sel, None)
  {
  }

  /** Only the eligibility flags decide which selected blocks `execute` touches. */
  lemma {:induction false} EligibleIndicesDependOnFlags(bs: seq<Block>, bs': seq<Block>, sel: seq<nat>)
    requires |bs'| == |bs|
    requires forall i :: 0 <= i < |bs| ==> bs'[i].eligible == bs[i].eligible
    ensures EligibleIndices(bs', sel) == EligibleIndices(bs, sel)
  {
    if sel != [] {
      EligibleIndicesDependOnFlags(bs, bs', sel[1..]);
    }
  }

  /** Executing `rtl` twice, starting from a first eligible block that is not `rtl`, first
      sets `rtl` on every eligible selected block and then removes the attribute from all of
      them again: the result is that of executing with no value at all. */
  lemma ToggleTwice(bs: seq<Block>, sel: seq<nat>)
    requires EligibleIndices(bs, sel) != []
    requires FirstEligible(bs, sel).direction != Some("rtl")
    ensures ExecuteOn(bs, sel, Some("rtl")).Success?
    ensures var once := ExecuteOn(bs, sel, Some("rtl")).value;
      && ExecuteOn(once, sel, Some("rtl")) == ExecuteOn(bs, sel, None)
      && (forall i :: i in EligibleIndices(bs, sel) ==> once[i].direction == Some("rtl"))
  {
    var e := EligibleIndices(bs, sel);
    var once := ExecuteOn(bs, sel, Some("rtl")).value;
    assert once == WithDirection(bs, e, Some("rtl"));
    EligibleIndicesDependOnFlags(bs, once, sel);
    assert e[0] in e;
    assert FirstEligible(once, sel).direction == Some("rtl");
    assert WithDirection(once, e, None) == WithDirection(bs, e, None);
  }

  /** Executing `rtl` and refreshing shows `rtl`; executing `rtl` again and refreshing shows
      `ltr` (the attribute is gone). */
  lemma ExecuteThenRefresh(bs: seq<Block>, sel: seq<nat>)
    requires SelectionWellFormed(|bs|, sel)
    requires |sel| > 0 && bs[sel[0]].eligible && bs[sel[0]].direction != Some("rtl")
    ensures ExecuteOn(bs, sel, Some("rtl")).Success?
    ensures var once := ExecuteOn(bs, sel, Some("rtl")).value;
      && RefreshState(once, sel) == CommandState(true, "rtl")
      && ExecuteOn(once, sel, Some("rtl")).Success?
      && RefreshState(ExecuteOn(once, sel, Some("rtl")).value, sel) == CommandState(true, "ltr")
  {
    RefreshFirstBlock(bs, sel);
    ToggleTwice(bs, sel);
    var once := ExecuteOn(bs, sel, Some("rtl")).value;
    assert sel[0] in EligibleIndices(bs, sel);
    var twice := ExecuteOn(bs, sel, None).value;
    assert twice[sel[0]] == bs[sel[0]].(direction := None);
  }

  /** Executing with no value or a supported value keeps a normal document normal. */
  lemma ExecutePreservesNormal(bs: seq<Block>, sel: seq<nat>, value: Option<string>)
    requires DirectionsNormal(bs)
    requires value.None? || Utils.IsSupported(value.value)
    requires ExecuteOn(bs, sel, value).Success?
    ensures DirectionsNormal(ExecuteOn(bs, sel, value).value)
  {
  }

  /** The requested value is not validated: an unsupported literal is stored as it is, and
      the document is then no longer normal. */
  lemma UnsupportedValueIsWritten()
    ensures ExecuteOn([Block(true, None)], [0], Some("auto")) == Success([Block(true, Some("auto"))])
    ensures !DirectionsNormal([Block(true, Some("auto"))])
  {
    var bs := [Block(true, None)];
    assert EligibleIndices(bs, [0]) == [0];
    assert WithDirection(bs, [0], Some("auto")) == [Block(true, Some("auto"))];
    var out := [Block(true, Some("auto"))];
    assert out[0].direction.value == "auto";
    assert !Utils.IsSupported(out[0].direction.value);
  }

  /** Two selected blocks, the first eligible and already `rtl`, the second not eligible:
      executing `rtl` removes the attribute from the first block (its current value equals the
      requested one) and leaves the second alone. */
  lemma ExecuteOnAlreadyRtl()
    ensures ExecuteOn([Block(true, Some("rtl")), Block(false, None)], [0, 1], Some("rtl"))
      == Success([Block(true, None), Block(false, None)])
  {
    var bs := [Block(true, Some("rtl")), Block(false, None)];
    TwoBlockEligibility(bs);
    assert EligibleIndices(bs, [0, 1]) == [0];
    assert FirstEligible(bs, [0, 1]) == bs[0];
    var w := WithDirection(bs, [0], None);
    assert w[0] == Block(true, None) && w[1] == Block(false, None);
    assert w == [Block(true, None), Block(false, None)];
    assert ExecuteOn(bs, [0, 1], Some("rtl")) == Success(w);
  }

  /** A client of the command object: one eligible block without an attribute, toggled on
      and off through `Execute` and `Refresh`. */
  method ToggleOneBlock()
  {
    var a := new Block[1];
    a[0] := Block(true, None);
    var doc := new Document(a, [0]);
    assert a[..] == [Block(true, None)];
    var cmd := new DirectionCommand(doc);
    assert cmd.State() == CommandState(true, "ltr");
    ExecuteThenRefresh([Block(true, None)], [0]);
    ghost var once := ExecuteOn([Block(true, None)], [0], Some("rtl")).value;
    var r := cmd.Execute(Some("rtl"));
    assert r == Pass && a[..] == once;
    cmd.Refresh();
    assert cmd.State() == CommandState(true, "rtl");
    r := cmd.Execute(Some("rtl"));
    assert r == Pass;
    cmd.Refresh();
    assert cmd.State() == CommandState(true, "ltr");
  }
}
