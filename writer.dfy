/** The writer of listdiff: `write_to_csv` emits the unique values, one
    single-field row per value. */
module Writer {
  import Loader

  /** Whether the output file can be opened for writing. */
  datatype Destination = Writable | Unwritable

  /** The console message of the writer. */
  datatype Message =
    | WrittenTo     // the confirmation naming the output file
    | WriteError    // opening the output file raised

  /** `out` lists the values of `upcs`, each exactly once, each as a row of one field. */
  ghost predicate IsOutputOf(out: seq<Loader.Row>, upcs: set<string>)
  {
    && (forall i :: 0 <= i < |out| ==> |out[i]| == 1 && out[i][0] in upcs)
    && (forall u :: u in upcs ==> exists i :: 0 <= i < |out| && out[i] == [u])
    && (forall i, j :: 0 <= i < j < |out| ==> out[i] != out[j])
  }

  /** An output of the values of `upcs` has exactly one row per value. */
  lemma {:induction false} OutputRowCount(out: seq<Loader.Row>, upcs: set<string>)
    requires IsOutputOf(out, upcs)
    ensures |out| == |upcs|
    decreases |out|
  {
    if out == [] {
      assert forall u :: u !in upcs;
      assert upcs == {};
    } else {
      var n := |out| - 1;
      var last := out[n][0];
      var init := out[..n];
      var rest := upcs - {last};
      forall i | 0 <= i < |init|
        ensures |init[i]| == 1 && init[i][0] in rest
      {
        assert out[i] != out[n];
        assert out[i] == [out[i][0]] && out[n] == [last];
      }
      forall u | u in rest
        ensures exists i :: 0 <= i < |init| && init[i] == [u]
      {
        var i :| 0 <= i < |out| && out[i] == [u];
        assert i != n;
        assert init[i] == [u];
      }
      assert IsOutputOf(init, rest);
      OutputRowCount(init, rest);
    }
  }

  /** `write_to_csv`: `[[upc] for upc in upcs]` written out. Python visits a set
      in no specified order, so each next value is chosen freely. Nothing is
      written when the destination cannot be opened. */
  method WriteToCsv(upcs: set<string>, destination: Destination)
    returns (written: seq<Loader.Row>, message: Message)
    ensures destination.Unwritable? ==> written == [] && message == WriteError
    ensures destination.Writable? ==> message == WrittenTo && IsOutputOf(written, upcs)
    ensures destination.Writable? ==> |written| == |upcs|
  {
    written := [];
    if destination.Unwritable? {
      message := WriteError;
      return;
    }
    var remaining := upcs;
    while remaining != {}
      invariant remaining <= upcs
      invariant forall i :: 0 <= i < |written| ==> |written[i]| == 1 && written[i][0] in upcs - remaining
      invariant forall u :: u in upcs - remaining ==> exists i :: 0 <= i < |written| && written[i] == [u]
      invariant forall i, j :: 0 <= i < j < |written| ==> written[i] != written[j]
      invariant |written| + |remaining| == |upcs|
      decreases |remaining|
    {
      var u :| u in remaining;
      ghost var prev := written;
      written := written + [[u]];
      assert written[|prev|] == [u];
      assert forall i :: 0 <= i < |prev| ==> written[i] == prev[i];
      remaining := remaining - {u};
    }
    assert upcs - remaining == upcs;
    message := WrittenTo;
  }
}
