# Real pose copy, modelled in Dafny

"Real pose copy" is a Blender addon with two pose-mode operators:

- **Copy pose as JSON** walks the selected pose bones. It builds a mapping from bone name to a
  record whose `matrix_basis` field holds the bone's local matrix as a list of row tuples. The
  mapping is written to the clipboard as JSON.
- **Paste pose from JSON** decodes the clipboard. If decoding fails, the operator reports an
  error and returns `CANCELLED`. Otherwise it walks the decoded entries. A name that is a bone of
  the active rig gets that bone's `matrix_basis` set to the record's rows. Any other name is
  skipped with a warning, and the walk goes on.

Both operators are available only while the mode is `'POSE'`.

The model is the single module `RealPoseCopy` in `real_pose_copy.dfy`:

- A matrix is `Matrix(rows: seq<Vector>)` and a row is `Vector(components: seq<real>)`, standing
  in for the host's matrix and vector types. The entries are exact reals that are carried but
  never computed on.
- A decoded record is a `map<string, Value>`, where a `Value` is a list of rows or some other JSON
  value. Extra fields in a record are therefore allowed.
- A snapshot is a `map<string, Record>`.
- Capture is the method `CopyAsJson`. Its loop fills the mapping the way the source's
  `defaultdict(dict)` does, and it is specified by the function `Captured`.
- The bone table of the active object is the class `PoseBones`, whose field `bones` is a
  `map<string, Matrix>`. Paste is its method `PasteFromJson`. It is specified by the function
  `Applied`, and it returns the skipped names.
- The JSON text itself is abstract. The mapping that capture returns is what travels through the
  clipboard, and paste receives `Parsed`, which is either `Ok(snapshot)` or `ParseError(message)`.

The properties proved are these:

- Capture's keys are exactly the selected names.
- When a name is selected twice, the later bone wins.
- Each record holds exactly the field `matrix_basis`, containing the bone's rows in order.
- Converting rows back into a matrix round-trips.
- A parse failure changes nothing.
- A paste writes exactly the matched bones and leaves every other bone alone. It never adds a bone.
- Each unmatched name is reported exactly once.
- Paste is idempotent.
- Copying from a rig and pasting onto the same rig is the identity.

## Model

| member | source | states |
|---|---|---|
| `RealPoseCopy.PollGatesOnPoseMode` | real_pose_copy.py:33-35 | Both operators' `poll` (lines 34-35 and 57-58, modelled once as `Poll`) is true exactly when the mode is `"POSE"`; other modes such as `"OBJECT"`, `"EDIT_ARMATURE"` or lower-case `"pose"` are refused |
| `RealPoseCopy.RowTuples` | real_pose_copy.py:41 | The captured value has one row per matrix row, in the same order, and each row holds that row's numbers unchanged |
| `RealPoseCopy.ToMatrix` | real_pose_copy.py:77 | Building a matrix from decoded rows gives one matrix row per list row, with the same numbers in the same order |
| `RealPoseCopy.RowTuplesRoundTrip` | real_pose_copy.py:41 | Converting a matrix to row tuples and back gives the same matrix |
| `RealPoseCopy.ToMatrixRoundTrip` | real_pose_copy.py:77 | Building a matrix from rows and converting it back to row tuples gives the same rows |
| `RealPoseCopy.RowTuplesKeepShape` | real_pose_copy.py:41 | A 4x4 matrix is captured as 4 rows of 4 numbers |
| `RealPoseCopy.CapturedKeys` | real_pose_copy.py:38-42 | The keys of the captured mapping are exactly the names of the selected bones, so an empty selection gives an empty mapping |
| `RealPoseCopy.CapturedLastWins` | real_pose_copy.py:39-42 | If no later selected bone has the same name as bone i, then the record under bone i's name is exactly bone i's record, so the last bone with a duplicated name wins |
| `RealPoseCopy.CapturedRecordShape` | real_pose_copy.py:38-42 | Every captured record has `matrix_basis` as its only field, and that field holds rows |
| `RealPoseCopy.CapturedFrom` | real_pose_copy.py:39-42 | Every captured record comes from a selected bone with that name, no later selected bone has that name, and the record holds that bone's rows |
| `RealPoseCopy.CopyAsJson` | real_pose_copy.py:37-47 | The copy operator always finishes, and its clipboard mapping is `Captured(selected)`; its keys are the selected names, and an empty selection gives the empty mapping; it has no `modifies` clause, so no bone changes |
| `RealPoseCopy.Applied` | real_pose_copy.py:70-77 | Pasting never adds or removes a bone: the table keeps the same names |
| `RealPoseCopy.AppliedEffect` | real_pose_copy.py:71-77 | After a paste, each bone named in the snapshot holds the matrix built from the snapshot's `matrix_basis`; every other bone keeps its old matrix |
| `RealPoseCopy.ApplyIdempotent` | real_pose_copy.py:71-77 | Pasting the same snapshot twice leaves the same table as pasting it once |
| `RealPoseCopy.CaptureThenApplyIsIdentity` | real_pose_copy.py:37-77 | If every bone of the rig has a 4x4 matrix and the selected bones are bones of the rig with their current matrices, their capture can be pasted onto that rig, and pasting it leaves the bone table unchanged |
| `RealPoseCopy.PartialMatchExample` | real_pose_copy.py:71-77 | For 4x4 matrices: pasting a snapshot of A, B and C onto a rig with A, C and D writes A and C, leaves D alone, and leaves only B unmatched |
| `RealPoseCopy.ListsOnceLength` | real_pose_copy.py:71-74 | A list without duplicates whose elements are exactly a given set has the same length as that set; so the unmatched list has one entry per unknown name |
| `RealPoseCopy.PoseBones.PasteFromJson` | real_pose_copy.py:60-80 | On a parse error: `Cancelled`, the bone table unchanged and nothing reported. Otherwise: `Finished`, the table equal to `Applied(old table, snapshot)`, and the unmatched list holding each snapshot name missing from the rig exactly once and nothing else |
| `RealPoseCopy.CopyThenPasteOnSameRig` | real_pose_copy.py:37-80 | At the level of the two operators: copying bones of a rig whose matrices are 4x4 and pasting the clipboard onto the same rig leaves every bone as it was and reports no unmatched name |
| `RealPoseCopy.PasteTwice` | real_pose_copy.py:60-80 | At the level of the operator: two pastes of the same snapshot leave the table that one paste leaves |

## Left out

- JSON encoding and decoding (`json.dumps` at line 44 and `json.loads` at line 64) are library calls. Encoding is modelled as the identity on the mapping. Decoding is the abstract `Parsed` value. `ParseError` stands for the `ValueError` branch at lines 65-67.
- A decoded document whose root is not a JSON object is not modelled. The source would fail on `.items()` with an exception it does not catch. `Ok` always carries a mapping.
- Early failure on a bad record is not modelled. At line 77, a record for a bone on the rig that lacks `matrix_basis` raises an uncaught `KeyError`, and a `matrix_basis` that is not 4 rows of 4 numbers is rejected by the host's matrix constructor or by the assignment to the bone. Either error can come after earlier bones were already written. `PasteFromJson` instead requires every record whose name is on the rig to hold `matrix_basis` as 4 rows of 4 numbers (`Applicable`). Records for names not on the rig are never read, so they are not constrained.
- A decoded entry whose value is not a JSON object (such as `{"Z": 5}`) cannot be expressed: a `Snapshot` maps every name to a record. In the source such an entry is skipped and reported when its name is not on the rig (lines 72-74 never read it), and raises a `TypeError` at line 77 when it is; the model's skip-and-continue results cover only entries whose value is an object.
- The clipboard read and write (`context.window_manager.clipboard`, lines 44 and 62) is host I/O. The clipboard value is a method result for Capture and an argument for Paste.
- The host's bone objects are reduced to a name-to-matrix table. That covers `context.selected_pose_bones`, `context.active_object.pose.bones` and the `mathutils.Matrix` constructor; the constructor's own shape validation is replaced by the 4x4 requirement in `Applicable`. The selection is given as a sequence of (name, matrix) values.
- Matrix entries are exact reals, not floating point. Nothing is computed on them.
- `self.report` messages are not modelled as messages. The returned unmatched list stands for the per-bone warnings at line 73. The info and error messages are not modelled.
- The order in which paste visits the snapshot is unspecified. The source follows the decoded mapping's order. Only the order of the unmatched list could show the difference, and the model promises only its contents, without duplicates.
- Operator registration, `bl_*` metadata, panel drawing and `register`/`unregister` (lines 83-106) are UI plumbing.
- The paste operator does not count the bones it writes. Decoding does not reject a record without `matrix_basis`; only line 77 reads that field. Neither operator checks that bone names are non-empty. The model adds none of these checks.
