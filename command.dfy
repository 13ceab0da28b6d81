/** The direction command: its state (`isEnabled`, `value`) is recomputed from the first
    selected block, and executing it sets or removes the direction attribute on every
    selected block the schema allows to carry one. */
module Command {
  import opened Wrappers
  import opened Seqs
  import Utils

  /** A document block as far as the command is concerned: whether the schema allows the
      direction attribute on it, and the attribute itself (absent means the default). */
  datatype Block = Block(eligible: bool, direction: Option<string>)

  /** A snapshot of the command's two observable fields. */
  datatype CommandState = CommandState(isEnabled: bool, value: string)

  /** Why `execute` could not run. */
  datatype ExecuteError = NoEligibleBlock

  /** The selection names blocks of the document, in document order. */
  predicate SelectionWellFormed(n: nat, sel: seq<nat>)
  {
    && (forall k :: 0 <= k < |sel| ==> sel[k] < n)
    && (forall j, k :: 0 <= j < k < |sel| ==> sel[j] < sel[k])
  }

  /** The schema check `checkAttribute( block, 'direction' )`. */
  function CanBeAligned(block: Block): (r: bool)
    ensures r <==> block.eligible
  {
    block.eligible
  }

  /** Whether a requested value is falsy: absent or the empty string. */
  predicate IsFalsy(value: Option<string>)
  {
    value == None || value == Some("")
  }

  /** The removal rule of `execute`: remove when the requested value is the default, equals
      the first eligible block's current value, or is falsy. */
  function RemovesDirection(value: Option<string>, current: Option<string>): (r: bool)
    ensures r <==> value == None || value == Some("") || value == Some("ltr") || value == current
  {
    (value.Some? && Utils.IsDefault(value.value)) || current == value || IsFalsy(value)
  }

  /** The state `refresh` computes from the document and the selection. */
  function RefreshState(bs: seq<Block>, sel: seq<nat>): (r: CommandState)
    requires SelectionWellFormed(|bs|, sel)
    ensures r.isEnabled <==> |sel| > 0 && bs[sel[0]].eligible
    ensures !r.isEnabled ==> r.value == "ltr"
    ensures r.isEnabled ==> r.value == if bs[sel[0]].direction.Some? then bs[sel[0]].direction.value else "ltr"
  {
    if |sel| == 0 then CommandState(false, "ltr")
    else
      var firstBlock := bs[sel[0]];
      var enabled := CanBeAligned(firstBlock);
      CommandState(enabled, if enabled && firstBlock.direction.Some? then firstBlock.direction.value else "ltr")
  }

  /** The selected blocks the direction attribute may be set on, in selection order. */
  function EligibleIndices(bs: seq<Block>, sel: seq<nat>): (r: seq<nat>)
    ensures forall i :: i in r <==> i in sel && i < |bs| && CanBeAligned(bs[i])
  {
    Filter((i: nat) => i < |bs| && CanBeAligned(bs[i]), sel)
  }

  /** The document after giving every block listed in `idx` the direction `d`. */
  function WithDirection(bs: seq<Block>, idx: seq<nat>, d: Option<string>): (r: seq<Block>)
    ensures |r| == |bs|
  {
    seq(|bs|, i requires 0 <= i < |bs| => if i in idx then bs[i].(direction := d) else bs[i])
  }

  /** The first eligible selected block, whose attribute `execute` compares against. */
  function FirstEligible(bs: seq<Block>, sel: seq<nat>): (b: Block)
    requires EligibleIndices(bs, sel) != []
    ensures CanBeAligned(b)
    ensures exists k :: (0 <= k < |sel| && sel[k] < |bs| && bs[sel[k]].eligible && b == bs[sel[k]]
                         && forall j :: 0 <= j < k ==> !(sel[j] < |bs| && bs[sel[j]].eligible))
  {
    var blocks := EligibleIndices(bs, sel);
    assert blocks[0] in blocks;
    FilterHead((i: nat) => i < |bs| && CanBeAligned(bs[i]), sel);
    bs[blocks[0]]
  }

  /** What `execute( { value } )` does to the document: an error when no selected block is
      eligible, otherwise the document with the direction removed from or set on every
      eligible selected block. */
  function ExecuteOn(bs: seq<Block>, sel: seq<nat>, value: Option<string>): (r: Result<seq<Block>, ExecuteError>)
    ensures r.Failure? <==> forall i :: i in sel && i < |bs| ==> !bs[i].eligible
    ensures r.Success? ==> |r.value| == |bs|
    ensures r.Success? ==> forall i :: 0 <= i < |bs| ==> r.value[i].eligible == bs[i].eligible
    ensures r.Success? ==> forall i :: 0 <= i < |bs| ==>
      (r.value[i] == if i in sel && bs[i].eligible
        then bs[i].(direction := if RemovesDirection(value, FirstEligible(bs, sel).direction) then None else value)
        else bs[i])
  {
    var blocks := EligibleIndices(bs, sel);
    if blocks == [] then Failure(NoEligibleBlock)
    else if RemovesDirection(value, FirstEligible(bs, sel).direction) then Success(WithDirection(bs, blocks, None))
    else Success(WithDirection(bs, blocks, value))
  }

  /** The document of blocks and the user's selection, as the host editor keeps them. */
  class Document {
    const blocks: array<Block>
    var selection: seq<nat>

    ghost predicate Valid()
      reads this
    {
      SelectionWellFormed(blocks.Length, selection)
    }

    constructor (blocks: array<Block>, selection: seq<nat>)
      requires SelectionWellFormed(blocks.Length, selection)
      ensures Valid() && this.blocks == blocks && this.selection == selection
    {
      this.blocks := blocks;
      this.selection := selection;
    }

    /** The user selects other blocks. */
    method Select(selection: seq<nat>)
      requires SelectionWellFormed(blocks.Length, selection)
      modifies this`selection
      ensures Valid() && this.selection == selection
    {
      this.selection := selection;
    }
  }

  /** Removes the direction attribute from every listed block. */
  method RemoveDirectionFromSelection(a: array<Block>, blocks: seq<nat>)
    requires forall k :: 0 <= k < |blocks| ==> blocks[k] < a.Length
    modifies a
    ensures a[..] == WithDirection(old(a[..]), blocks, None)
  {
    for k := 0 to |blocks|
      invariant forall i :: 0 <= i < a.Length ==>
        a[i] == if i in blocks[..k] then old(a[i]).(direction := None) else old(a[i])
    {
      a[blocks[k]] := a[blocks[k]].(direction := None);
    }
    assert blocks[..|blocks|] == blocks;
  }

  /** Sets the direction attribute of every listed block to `direction`. */
  method SetDirectionOnSelection(a: array<Block>, blocks: seq<nat>, direction: string)
    requires forall k :: 0 <= k < |blocks| ==> blocks[k] < a.Length
    modifies a
    ensures a[..] == WithDirection(old(a[..]), blocks, Some(direction))
  {
    for k := 0 to |blocks|
      invariant forall i :: 0 <= i < a.Length ==>
        a[i] == if i in blocks[..k] then old(a[i]).(direction := Some(direction)) else old(a[i])
    {
      a[blocks[k]] := a[blocks[k]].(direction := Some(direction));
    }
    assert blocks[..|blocks|] == blocks;
  }

  /** The command object the host registers under the name `direction`. */
  class DirectionCommand {
    const doc: Document
    var isEnabled: bool
    var value: string

    ghost predicate Valid()
      reads this, doc
    {
      doc.Valid()
    }

    function State(): (s: CommandState)
      reads this
    {
      CommandState(isEnabled, value)
    }

    /** A command attached to a document, with its state refreshed. */
    constructor (doc: Document)
      requires doc.Valid()
      ensures Valid() && this.doc == doc
      ensures State() == RefreshState(doc.blocks[..], doc.selection)
    {
      this.doc := doc;
      new;
      Refresh();
    }

    /** Recomputes `isEnabled` and `value` from the first selected block. */
    method Refresh()
      requires Valid()
      modifies this
      ensures Valid()
      ensures State() == RefreshState(doc.blocks[..], doc.selection)
    {
      if |doc.selection| == 0 {
        isEnabled := false;
        value := "ltr";
      } else {
        var firstBlock := doc.blocks[doc.selection[0]];
        isEnabled := CanBeAligned(firstBlock);
        value := if isEnabled && firstBlock.direction.Some? then firstBlock.direction.value else "ltr";
      }
    }

    /** Removes or sets the direction on the eligible selected blocks. Fails, leaving the
        document as it was, when no selected block is eligible. */
    method Execute(value: Option<string>) returns (r: Outcome<ExecuteError>)
      requires Valid()
      modifies doc.blocks
      ensures Valid()
      ensures var res := ExecuteOn(old(doc.blocks[..]), doc.selection, value);
        if res.Success? then r == Pass && doc.blocks[..] == res.value
        else r == Fail(res.error) && doc.blocks[..] == old(doc.blocks[..])
    {
      var blocks := EligibleIndices(doc.blocks[..], doc.selection);
      if blocks == [] {
        return Fail(NoEligibleBlock);
      }
      assert blocks[0] in blocks;
      assert forall k :: 0 <= k < |blocks| ==> blocks[k] in blocks;
      var currentDirection := doc.blocks[blocks[0]].direction;
      var removeDirection := RemovesDirection(value, currentDirection);
      if removeDirection {
        RemoveDirectionFromSelection(doc.blocks, blocks);
      } else {
        SetDirectionOnSelection(doc.blocks, blocks, value.value);
      }
      return Pass;
    }
  }
}
