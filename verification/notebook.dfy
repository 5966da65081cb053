/** The executed notebook document as the expectation check reads it back,
    and the comprehension that collects its error outputs
    (runtest.py, `_notebook_run`). */
module Notebook {

  datatype Option<+T> = None | Some(value: T)

  /** One output of an executed cell: its `output_type` and its `traceback`
      entries (empty for outputs that are not errors). */
  datatype Output = Output(outputType: string, traceback: seq<string>)

  /** A cell of the executed document. `outputs` is `None` when the cell has
      no "outputs" field at all, as markdown cells do. */
  datatype Cell = Cell(outputs: Option<seq<Output>>)

  predicate IsError(o: Output)
  {
    o.outputType == "error"
  }

  /** The error outputs of one output list, in their order. */
  function ErrorsOf(outs: seq<Output>): (r: seq<Output>)
    ensures |r| <= |outs|
    ensures forall o | o in r :: IsError(o) && o in outs
  {
    if outs == [] then []
    else (if IsError(outs[0]) then [outs[0]] else []) + ErrorsOf(outs[1..])
  }

  function CellErrors(c: Cell): seq<Output>
  {
    match c.outputs
    case None => []
    case Some(outs) => ErrorsOf(outs)
  }

  /** `[output for cell in nb.cells if "outputs" in cell
       for output in cell["outputs"] if output.output_type == "error"]` */
  function ErrorOutputs(cells: seq<Cell>): (r: seq<Output>)
    ensures forall o | o in r :: IsError(o)
  {
    if cells == [] then [] else CellErrors(cells[0]) + ErrorOutputs(cells[1..])
  }

  /** Within one output list, every error output is kept as often as it
      occurs and nothing else is kept. */
  lemma {:induction false} ErrorsOfCount(outs: seq<Output>, o: Output)
    ensures multiset(ErrorsOf(outs))[o] == if IsError(o) then multiset(outs)[o] else 0
  {
    if outs != [] {
      ErrorsOfCount(outs[1..], o);
      assert outs == [outs[0]] + outs[1..];
    }
  }

  /** Order within a cell: the errors of a concatenation are the errors of
      the first part followed by those of the second. */
  lemma {:induction false} ErrorsOfAppend(xs: seq<Output>, ys: seq<Output>)
    ensures ErrorsOf(xs + ys) == ErrorsOf(xs) + ErrorsOf(ys)
  {
    if xs != [] {
      assert (xs + ys)[1..] == xs[1..] + ys;
      ErrorsOfAppend(xs[1..], ys);
    } else {
      assert xs + ys == ys;
    }
  }

  /** Order across cells: document order is kept. */
  lemma {:induction false} ErrorOutputsAppend(xs: seq<Cell>, ys: seq<Cell>)
    ensures ErrorOutputs(xs + ys) == ErrorOutputs(xs) + ErrorOutputs(ys)
  {
    if xs != [] {
      assert (xs + ys)[1..] == xs[1..] + ys;
      ErrorOutputsAppend(xs[1..], ys);
    } else {
      assert xs + ys == ys;
    }
  }

  /** A cell without an "outputs" field contributes nothing, wherever it is. */
  lemma CellWithoutOutputsIgnored(xs: seq<Cell>, ys: seq<Cell>)
    ensures ErrorOutputs(xs + [Cell(None)] + ys) == ErrorOutputs(xs + ys)
  {
    ErrorOutputsAppend(xs + [Cell(None)], ys);
    ErrorOutputsAppend(xs, [Cell(None)]);
    ErrorOutputsAppend(xs, ys);
  }

  /** An output is collected exactly when it is an error output of some
      cell that has an "outputs" field. */
  lemma {:induction false} ErrorOutputsMembership(cells: seq<Cell>, o: Output)
    ensures o in ErrorOutputs(cells) <==>
      IsError(o) && exists i :: 0 <= i < |cells| && cells[i].outputs.Some? && o in cells[i].outputs.value
  {
    if cells != [] {
      ErrorOutputsMembership(cells[1..], o);
      var c := cells[0];
      if c.outputs.Some? {
        ErrorsOfCount(c.outputs.value, o);
        assert o in CellErrors(c) <==> IsError(o) && o in c.outputs.value;
      }
      if exists i :: 0 <= i < |cells| && cells[i].outputs.Some? && o in cells[i].outputs.value {
        var i :| 0 <= i < |cells| && cells[i].outputs.Some? && o in cells[i].outputs.value;
        if i > 0 {
          assert cells[1..][i - 1] == cells[i];
        }
      }
    }
  }
}
