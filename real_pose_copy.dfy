/**
 A model of the "Real pose copy" Blender addon: capture the local matrices of
 the selected pose bones into a name-keyed snapshot, and paste a snapshot onto
 a rig's bone table, matching bones by exact name.

 The JSON text step is abstract: the snapshot a capture produces is the value
 that travels through the clipboard, and a paste receives either the decoded
 snapshot or a parse error.
 */
module RealPoseCopy {

  /** The interaction mode in which both operators are available. */
  const PoseMode: string := "POSE"

  /** The one field a captured bone record holds. */
  const MatrixBasisKey: string := "matrix_basis"

  /** A row of a matrix, as the host's vector type. */
  datatype Vector = Vector(components: seq<real>)

  /** A bone's local transform, as the host's matrix type: a sequence of rows. */
  datatype Matrix = Matrix(rows: seq<Vector>)

  /** A matrix row as plain numbers (the tuple a row is converted to). */
  type Row = seq<real>

  /** A JSON value found in a bone record: a list of rows, or anything else. */
  datatype Value = Rows(rows: seq<Row>) | OtherValue

  /** A bone record: field name to value. Unknown fields are allowed. */
  type Record = map<string, Value>

  /** The exchanged mapping from bone name to record. */
  type Snapshot = map<string, Record>

  /** A selected pose bone: its name and its current `matrix_basis`. */
  datatype PoseBone = PoseBone(name: string, matrixBasis: Matrix)

  /** Outcome of decoding the clipboard text. */
  datatype Parsed = Ok(snapshot: Snapshot) | ParseError(message: string)

  /** What an operator's execute returns to the host. */
  datatype Status = Finished | Cancelled

  // ---------------------------------------------------------------------
  // Availability

  /** Both operators are enabled exactly in pose mode. */
  predicate Poll(mode: string)
  {
    mode == PoseMode
  }

  lemma PollGatesOnPoseMode(mode: string)
    ensures Poll(mode) <==> mode == "POSE"
    ensures !Poll("OBJECT") && !Poll("EDIT_ARMATURE") && !Poll("pose")
  {
  }

  // ---------------------------------------------------------------------
  // Matrix conversions

  /** A matrix as a list of row tuples, as capture stores it. */
  function RowTuples(m: Matrix): (vals: seq<Row>)
    ensures |vals| == |m.rows|
    ensures forall i :: 0 <= i < |vals| ==> vals[i] == m.rows[i].components
  {
    seq(|m.rows|, i requires 0 <= i < |m.rows| => m.rows[i].components)
  }

  /** A list of rows turned back into a matrix, as paste does. */
  function ToMatrix(rows: seq<Row>): (m: Matrix)
    ensures |m.rows| == |rows|
    ensures forall i :: 0 <= i < |rows| ==> m.rows[i].components == rows[i]
  {
    Matrix(seq(|rows|, i requires 0 <= i < |rows| => Vector(rows[i])))
  }

  lemma RowTuplesRoundTrip(m: Matrix)
    ensures ToMatrix(RowTuples(m)) == m
  {
  }

  lemma ToMatrixRoundTrip(rows: seq<Row>)
    ensures RowTuples(ToMatrix(rows)) == rows
  {
  }

  /** A matrix of 4 rows of 4 numbers, the shape of a bone's local transform. */
  predicate Is4x4(m: Matrix)
  {
    |m.rows| == 4 && forall i :: 0 <= i < 4 ==> |m.rows[i].components| == 4
  }

  lemma RowTuplesKeepShape(m: Matrix)
    requires Is4x4(m)
    ensures |RowTuples(m)| == 4
    ensures forall i :: 0 <= i < 4 ==> |RowTuples(m)[i]| == 4
  {
  }

  // ---------------------------------------------------------------------
  // Capture (the copy operator)

  /** The set of names of the selected bones. */
  function NamesOf(selected: seq<PoseBone>): (names: set<string>)
  {
    set i | 0 <= i < |selected| :: selected[i].name
  }

  /** The record capture makes for one matrix. */
  function RecordOf(m: Matrix): (rec: Record)
  {
    map[MatrixBasisKey := Rows(RowTuples(m))]
  }

  /** Whether a record carries a well-formed `matrix_basis` field. */
  predicate HasMatrixBasis(rec: Record)
  {
    MatrixBasisKey in rec && rec[MatrixBasisKey].Rows?
  }

  /** The rows held in a record's `matrix_basis`. */
  function MatrixBasis(rec: Record): (rows: seq<Row>)
    requires HasMatrixBasis(rec)
  {
    rec[MatrixBasisKey].rows
  }

  /**
   One capture step: the bone's record (a fresh empty one if the name is new,
   otherwise the record already stored under that name) gets its
   `matrix_basis` set to the bone's row tuples.
   */
  function StoreBone(data: Snapshot, bone: PoseBone): (r: Snapshot)
  {
    var rec := if bone.name in data then data[bone.name] else map[];
    data[bone.name := rec[MatrixBasisKey := Rows(RowTuples(bone.matrixBasis))]]
  }

  /** The snapshot capture builds from a selection, bone after bone. */
  function Captured(selected: seq<PoseBone>): (r: Snapshot)
  {
    if |selected| == 0 then map[]
    else StoreBone(Captured(selected[..|selected| - 1]), selected[|selected| - 1])
  }

  /** Capture's keys are exactly the names of the selected bones. */
  lemma {:induction false} CapturedKeys(selected: seq<PoseBone>)
    ensures Captured(selected).Keys == NamesOf(selected)
  {
    if |selected| > 0 {
      var init := selected[..|selected| - 1];
      CapturedKeys(init);
      assert NamesOf(selected) == NamesOf(init) + {selected[|selected| - 1].name} by {
        forall n | n in NamesOf(selected) ensures n in NamesOf(init) + {selected[|selected| - 1].name} {
          var i :| 0 <= i < |selected| && selected[i].name == n;
          if i < |selected| - 1 { assert init[i] == selected[i]; }
        }
        forall n | n in NamesOf(init) ensures n in NamesOf(selected) {
          var i :| 0 <= i < |init| && init[i].name == n;
          assert selected[i] == init[i];
        }
      }
    }
  }

  /**
   Every captured record is exactly the record of the LAST selected bone with
   that name: its only field is `matrix_basis`, holding that bone's rows.
   */
  lemma {:induction false} CapturedLastWins(selected: seq<PoseBone>, i: nat)
    requires i < |selected|
    requires forall j :: i < j < |selected| ==> selected[j].name != selected[i].name
    ensures selected[i].name in Captured(selected)
    ensures Captured(selected)[selected[i].name] == RecordOf(selected[i].matrixBasis)
  {
    var last := |selected| - 1;
    var init := selected[..last];
    if i < last {
      assert init[i] == selected[i];
      CapturedLastWins(init, i);
      assert selected[last].name != selected[i].name;
    } else {
      var prev := Captured(init);
      var n := selected[i].name;
      var rec: Record := if n in prev then prev[n] else map[];
      if n in prev {
        CapturedRecordShape(init, n);
      }
      assert rec.Keys <= {MatrixBasisKey};
      assert rec[MatrixBasisKey := Rows(RowTuples(selected[i].matrixBasis))] == RecordOf(selected[i].matrixBasis);
    }
  }

  /** Every captured record holds the `matrix_basis` field and nothing else. */
  lemma {:induction false} CapturedRecordShape(selected: seq<PoseBone>, n: string)
    requires n in Captured(selected)
    ensures Captured(selected)[n].Keys == {MatrixBasisKey}
    ensures HasMatrixBasis(Captured(selected)[n])
  {
    var last := |selected| - 1;
    var init := selected[..last];
    if selected[last].name != n {
      CapturedRecordShape(init, n);
    } else if n in Captured(init) {
      CapturedRecordShape(init, n);
    }
  }

  /**
   For each captured name there is a selected bone with that name, no later
   selected bone shares it, and the record is that bone's.
   */
  lemma {:induction false} CapturedFrom(selected: seq<PoseBone>, n: string)
    requires n in Captured(selected)
    ensures exists i :: 0 <= i < |selected| && selected[i].name == n
                        && (forall j :: i < j < |selected| ==> selected[j].name != n)
                        && Captured(selected)[n] == RecordOf(selected[i].matrixBasis)
  {
    var last := |selected| - 1;
    var init := selected[..last];
    if selected[last].name == n {
      CapturedLastWins(selected, last);
    } else {
      CapturedFrom(init, n);
      var i :| 0 <= i < |init| && init[i].name == n
               && (forall j :: i < j < |init| ==> init[j].name != n)
               && Captured(init)[n] == RecordOf(init[i].matrixBasis);
      assert selected[i] == init[i];
      assert forall j :: i < j < |selected| ==> selected[j].name != n by {
        forall j | i < j < |selected| ensures selected[j].name != n {
          if j < last { assert selected[j] == init[j]; }
        }
      }
    }
  }

  /**
   The copy operator: walks the selection and fills the name-keyed mapping;
   the mapping is what goes to the clipboard (encoding is abstract).
   The selection is read only; no bone changes.
   */
  method CopyAsJson(selected: seq<PoseBone>) returns (status: Status, clipboard: Snapshot)
    ensures status == Finished
    ensures clipboard == Captured(selected)
    ensures clipboard.Keys == NamesOf(selected)
    ensures |selected| == 0 ==> clipboard == map[]
  {
    var boneData: Snapshot := map[];
    for k := 0 to |selected|
      invariant boneData == Captured(selected[..k])
    {
      var bone := selected[k];
      var vals := RowTuples(bone.matrixBasis);
      var rec := if bone.name in boneData then boneData[bone.name] else map[];
      boneData := boneData[bone.name := rec[MatrixBasisKey := Rows(vals)]];
      assert selected[..k + 1][..k] == selected[..k];
    }
    assert selected[..|selected|] == selected;
    CapturedKeys(selected);
    clipboard := boneData;
    status := Finished;
  }

  // ---------------------------------------------------------------------
  // Apply (the paste operator)

  /**
   What paste needs of a snapshot: every record whose name is on the rig has a
   `matrix_basis` holding 4 rows of 4 numbers (only those records are read, and
   a bone's local matrix is 4x4).
   */
  predicate Applicable(bones: map<string, Matrix>, snapshot: Snapshot)
  {
    forall n :: n in snapshot && n in bones ==>
      HasMatrixBasis(snapshot[n]) && Is4x4(ToMatrix(MatrixBasis(snapshot[n])))
  }

  /** The bone table after pasting a snapshot onto it. */
  function Applied(bones: map<string, Matrix>, snapshot: Snapshot): (r: map<string, Matrix>)
    requires Applicable(bones, snapshot)
    ensures r.Keys == bones.Keys
  {
    map n | n in bones :: if n in snapshot then ToMatrix(MatrixBasis(snapshot[n])) else bones[n]
  }

  /**
   After a paste, every snapshot name on the rig has the snapshot's matrix,
   every other bone keeps its old one, and no bone is added.
   */
  lemma AppliedEffect(bones: map<string, Matrix>, snapshot: Snapshot)
    requires Applicable(bones, snapshot)
    ensures Applied(bones, snapshot).Keys == bones.Keys
    ensures forall n :: n in bones && n in snapshot ==>
              Applied(bones, snapshot)[n] == ToMatrix(MatrixBasis(snapshot[n]))
    ensures forall n :: n in bones && n !in snapshot ==> Applied(bones, snapshot)[n] == bones[n]
  {
  }

  /** Pasting the same snapshot twice gives the table pasting it once gives. */
  lemma ApplyIdempotent(bones: map<string, Matrix>, snapshot: Snapshot)
    requires Applicable(bones, snapshot)
    ensures Applicable(Applied(bones, snapshot), snapshot)
    ensures Applied(Applied(bones, snapshot), snapshot) == Applied(bones, snapshot)
  {
  }

  /**
   Capturing bones of a rig and pasting the result onto the same rig leaves
   its bone table unchanged.
   */
  lemma CaptureThenApplyIsIdentity(bones: map<string, Matrix>, selected: seq<PoseBone>)
    requires forall i :: 0 <= i < |selected| ==>
               selected[i].name in bones && bones[selected[i].name] == selected[i].matrixBasis
    requires forall n :: n in bones ==> Is4x4(bones[n])
    ensures Applicable(bones, Captured(selected))
    ensures Applied(bones, Captured(selected)) == bones
  {
    var snap := Captured(selected);
    forall n | n in snap
      ensures HasMatrixBasis(snap[n])
      ensures n in bones && ToMatrix(MatrixBasis(snap[n])) == bones[n]
    {
      CapturedFrom(selected, n);
      var i :| 0 <= i < |selected| && selected[i].name == n
               && snap[n] == RecordOf(selected[i].matrixBasis);
      RowTuplesRoundTrip(selected[i].matrixBasis);
    }
  }

  /**
   The partial-match case: snapshot {A, B, C} onto rig {A, C, D} writes A and
   C, leaves D alone and B is the only unmatched name.
   */
  lemma PartialMatchExample(ma: Matrix, mb: Matrix, mc: Matrix, old1: Matrix, old2: Matrix, old3: Matrix)
    requires Is4x4(ma) && Is4x4(mc)
    ensures var snap := map["A" := RecordOf(ma), "B" := RecordOf(mb), "C" := RecordOf(mc)];
            var bones := map["A" := old1, "C" := old2, "D" := old3];
            Applicable(bones, snap)
            && Applied(bones, snap) == map["A" := ma, "C" := mc, "D" := old3]
            && snap.Keys - bones.Keys == {"B"}
  {
    RowTuplesRoundTrip(ma);
    RowTuplesRoundTrip(mc);
    var snap := map["A" := RecordOf(ma), "B" := RecordOf(mb), "C" := RecordOf(mc)];
    var bones := map["A" := old1, "C" := old2, "D" := old3];
    assert Applied(bones, snap).Keys == {"A", "C", "D"};
  }

  /** No name occurs twice in a list. */
  predicate NoDuplicates(names: seq<string>)
  {
    forall i, j :: 0 <= i < j < |names| ==> names[i] != names[j]
  }

  /** The set of names in a list. */
  function SetOf(names: seq<string>): (r: set<string>)
  {
    set i | 0 <= i < |names| :: names[i]
  }

  /** A list holds each name of a set exactly once, and nothing else. */
  predicate ListsOnce(names: seq<string>, s: set<string>)
  {
    NoDuplicates(names) && SetOf(names) == s
  }

  lemma ListsOnceAppend(names: seq<string>, s: set<string>, n: string)
    requires ListsOnce(names, s)
    requires n !in s
    ensures ListsOnce(names + [n], s + {n})
  {
    var longer := names + [n];
    assert SetOf(longer) == SetOf(names) + {n} by {
      forall x | x in SetOf(longer) ensures x in SetOf(names) + {n} {
        var i :| 0 <= i < |longer| && longer[i] == x;
        if i < |names| { assert names[i] == x; }
      }
      forall x | x in SetOf(names) ensures x in SetOf(longer) {
        var i :| 0 <= i < |names| && names[i] == x;
        assert longer[i] == x;
      }
      assert longer[|names|] == n;
    }
  }

  /** The names of a non-empty list: those before the last, and the last. */
  lemma SetOfSnoc(names: seq<string>)
    requires names != []
    ensures SetOf(names) == SetOf(names[..|names| - 1]) + {names[|names| - 1]}
  {
  }

  /** A list that holds each name of a set once is as long as the set is large. */
  lemma {:induction false} ListsOnceLength(names: seq<string>, s: set<string>)
    requires ListsOnce(names, s)
    ensures |names| == |s|
  {
    if names != [] {
      var init := names[..|names| - 1];
      var n := names[|names| - 1];
      SetOfSnoc(names);
      assert n !in SetOf(init) by {
        forall i | 0 <= i < |init| ensures init[i] != n {
          assert init[i] == names[i];
        }
      }
      assert NoDuplicates(init);
      ListsOnceLength(init, SetOf(init));
    }
  }

  /** The active object's pose: its bone table, name to `matrix_basis`. */
  class PoseBones {
    var bones: map<string, Matrix>

    constructor (bones: map<string, Matrix>)
      ensures this.bones == bones
    {
      this.bones := bones;
    }

    /**
     The paste operator. A parse error cancels and touches nothing. Otherwise
     each snapshot entry is written onto the bone of the same name; entries
     naming no bone on the rig are skipped and reported, once each.
     */
    method PasteFromJson(parsed: Parsed) returns (status: Status, unmatched: seq<string>)
      requires parsed.Ok? ==> Applicable(bones, parsed.snapshot)
      modifies this
      ensures parsed.ParseError? ==> status == Cancelled && bones == old(bones) && unmatched == []
      ensures parsed.Ok? ==> status == Finished && bones == Applied(old(bones), parsed.snapshot)
      ensures parsed.Ok? ==> ListsOnce(unmatched, parsed.snapshot.Keys - old(bones).Keys)
    {
      if parsed.ParseError? {
        return Cancelled, [];
      }
      var boneData := parsed.snapshot;
      ghost var before := bones;
      var table := bones;
      ghost var done: set<string> := {};
      ghost var skipped: set<string> := {};
      unmatched := [];
      var todo := boneData.Keys;
      while todo != {}
        invariant done + todo == boneData.Keys && done !! todo
        invariant table.Keys == before.Keys
        invariant forall n :: n in table ==>
                    table[n] == if n in done then ToMatrix(MatrixBasis(boneData[n])) else before[n]
        invariant skipped == done - before.Keys
        invariant ListsOnce(unmatched, skipped)
        decreases todo
      {
        var boneName :| boneName in todo;
        todo := todo - {boneName};
        done := done + {boneName};
        if boneName !in table {
          ListsOnceAppend(unmatched, skipped, boneName);
          unmatched := unmatched + [boneName];
          skipped := skipped + {boneName};
          continue;
        }
        table := table[boneName := ToMatrix(MatrixBasis(boneData[boneName]))];
      }
      bones := table;
      status := Finished;
    }
  }

  /**
   A copy from a rig followed by a paste of the result onto the same rig
   leaves every bone as it was and reports nothing unmatched.
   */
  method CopyThenPasteOnSameRig(pose: PoseBones, selected: seq<PoseBone>) returns (unmatched: seq<string>)
    requires forall i :: 0 <= i < |selected| ==>
               selected[i].name in pose.bones && pose.bones[selected[i].name] == selected[i].matrixBasis
    requires forall n :: n in pose.bones ==> Is4x4(pose.bones[n])
    modifies pose
    ensures pose.bones == old(pose.bones)
    ensures unmatched == []
  {
    var _, clipboard := CopyAsJson(selected);
    CaptureThenApplyIsIdentity(pose.bones, selected);
    var status;
    status, unmatched := pose.PasteFromJson(Ok(clipboard));
    CapturedKeys(selected);
    assert clipboard.Keys - old(pose.bones).Keys == {};
    ListsOnceLength(unmatched, {});
  }

  /** Pasting the same decoded snapshot twice leaves what one paste leaves. */
  method PasteTwice(pose: PoseBones, snapshot: Snapshot)
    requires Applicable(pose.bones, snapshot)
    modifies pose
    ensures pose.bones == Applied(old(pose.bones), snapshot)
  {
    var _, _ := pose.PasteFromJson(Ok(snapshot));
    ApplyIdempotent(old(pose.bones), snapshot);
    var _, _ := pose.PasteFromJson(Ok(snapshot));
  }
}
