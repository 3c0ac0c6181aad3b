/** The review screen: the model's scores through a sequence of edits, and bulk confirm. */
module Review {
  import opened Common
  import opened Coerce

  type Row = map<string, Value>
  type Scores = map<string, real>

  /** The staged table and its scores. */
  datatype Draft = Draft(table: seq<Row>, scores: seq<Scores>)

  /** `dict.get`: an absent key reads as null. */
  function Get(row: Row, key: string): Value {
    if key in row then row[key] else Null
  }

  function RowScores(scores: seq<Scores>, index: nat): Scores {
    if index < |scores| then scores[index] else map[]
  }

  predicate Unchanged(old_: Row, new_: Row, key: string) {
    key in new_ && new_[key] == Get(old_, key)
  }

  function Surviving(table: seq<Row>, scores: seq<Scores>, edited: seq<Row>): (r: seq<Scores>)
    ensures |r| == |edited|
  {
    seq(|edited|, i requires 0 <= i < |edited| =>
      if i >= |table| then map[]
      else map key | key in RowScores(scores, i) && Unchanged(table[i], edited[i], key) :: RowScores(scores, i)[key])
  }

  method SurvivingConfidence(table: seq<Row>, scores: seq<Scores>, edited: seq<Row>) returns (surviving: seq<Scores>)
    ensures surviving == Surviving(table, scores, edited)
  {
    surviving := [];
    for index := 0 to |edited|
      invariant |surviving| == index
      invariant forall i :: 0 <= i < index ==> surviving[i] == Surviving(table, scores, edited)[i]
    {
      if index >= |table| {
        surviving := surviving + [map[]];
        continue;
      }
      var given := if index < |scores| then scores[index] else map[];
      surviving := surviving + [map key | key in given && key in edited[index]
        && edited[index][key] == Get(table[index], key) :: given[key]];
    }
  }

  /** One saved edit of the whole table. */
  function Patched(d: Draft, edited: seq<Row>): Draft {
    Draft(edited, Surviving(d.table, d.scores, edited))
  }

  function AfterEdits(d: Draft, edits: seq<seq<Row>>): Draft {
    if edits == [] then d else Patched(AfterEdits(d, edits[..|edits| - 1]), edits[|edits| - 1])
  }

  predicate Scored(d: Draft, index: nat, key: string) {
    key in RowScores(d.scores, index)
  }

  /** The cell exists in every saved table and always held the value that was scored. */
  predicate AlwaysHeld(d: Draft, edits: seq<seq<Row>>, index: nat, key: string) {
    && (edits != [] ==> index < |d.table|)
    && forall k :: 0 <= k < |edits| ==>
         index < |edits[k]| && key in edits[k][index] && edits[k][index][key] == Get(d.table[index], key)
  }

  lemma PatchedExactly(d: Draft, edited: seq<Row>, index: nat, key: string)
    ensures Scored(Patched(d, edited), index, key)
       <==> (&& Scored(d, index, key)
             && index < |d.table| && index < |edited| && Unchanged(d.table[index], edited[index], key))
    ensures Scored(Patched(d, edited), index, key) ==>
              RowScores(Patched(d, edited).scores, index)[key] == RowScores(d.scores, index)[key]
  {
  }

  /** After any number of edits a cell still has a score if and only if it had one and
      every saved table held the scored value there; and the score is the model's own. */
  lemma {:induction false} ScoresSurviveExactly(d: Draft, edits: seq<seq<Row>>, index: nat, key: string)
    ensures Scored(AfterEdits(d, edits), index, key) <==> Scored(d, index, key) && AlwaysHeld(d, edits, index, key)
    ensures Scored(AfterEdits(d, edits), index, key) ==>
              RowScores(AfterEdits(d, edits).scores, index)[key] == RowScores(d.scores, index)[key]
  {
    if edits != [] {
      var before, last := edits[..|edits| - 1], edits[|edits| - 1];
      ScoresSurviveExactly(d, before, index, key);
      PatchedExactly(AfterEdits(d, before), last, index, key);
      var table := AfterEdits(d, before).table;
      assert before != [] ==> table == before[|before| - 1];
      hide Surviving, AfterEdits, RowScores;
      assert AlwaysHeld(d, edits, index, key)
        <==> (&& AlwaysHeld(d, before, index, key)
              && index < |table| && index < |last| && Unchanged(table[index], last[index], key))
      by {
        if AlwaysHeld(d, edits, index, key) {
          assert forall k :: 0 <= k < |before| ==> before[k] == edits[k];
          if before != [] { assert Get(table[index], key) == Get(d.table[index], key); }
        } else if AlwaysHeld(d, before, index, key) && index < |table| && index < |last|
          && Unchanged(table[index], last[index], key) {
          forall k | 0 <= k < |edits|
            ensures index < |edits[k]| && key in edits[k][index] && edits[k][index][key] == Get(d.table[index], key)
          {
            if k < |before| { assert edits[k] == before[k]; }
          }
        }
      }
    }
  }

  /** The table is the one saved last, and every save leaves one score map per row. */
  lemma LastSaveStands(d: Draft, edits: seq<seq<Row>>, last: seq<Row>)
    ensures var after := AfterEdits(d, edits + [last]); after.table == last && |after.scores| == |last|
  {
    assert (edits + [last])[..|edits|] == edits;
  }

  /** Saving the same table again loses nothing. */
  lemma ResendKeepsScores(d: Draft)
    requires |d.scores| == |d.table|
    requires forall i, key :: 0 <= i < |d.table| && key in d.scores[i] ==> key in d.table[i]
    ensures Patched(d, d.table) == d
  {
    forall i | 0 <= i < |d.table| ensures Surviving(d.table, d.scores, d.table)[i] == d.scores[i] {
    }
  }

  /* ---- Bulk confirm ---- */

  /** No score anywhere in the table is below the threshold. */
  predicate Clean(d: Draft, threshold: real) {
    forall i, key :: 0 <= i < |d.scores| && key in d.scores[i] ==> d.scores[i][key] >= threshold
  }

  /** Editing can make a draft clean but never unclean, since an edited cell has no score. */
  lemma {:induction false} EditsKeepClean(d: Draft, edits: seq<seq<Row>>, threshold: real)
    requires Clean(d, threshold)
    ensures Clean(AfterEdits(d, edits), threshold)
  {
    var after := AfterEdits(d, edits);
    forall i, key | 0 <= i < |after.scores| && key in after.scores[i] ensures after.scores[i][key] >= threshold {
      ScoresSurviveExactly(d, edits, i, key);
      assert Scored(after, i, key);
    }
  }

  /** A draft is clean after edits if and only if every low score's cell was changed,
      moved or removed in some save. */
  lemma CleanAfterEditsExactly(d: Draft, edits: seq<seq<Row>>, threshold: real)
    ensures Clean(AfterEdits(d, edits), threshold)
       <==> forall i, key :: 0 <= i < |d.scores| && key in d.scores[i] && d.scores[i][key] < threshold ==>
         !AlwaysHeld(d, edits, i, key)
  {
    var after := AfterEdits(d, edits);
    forall i: nat, key: string
      ensures Scored(after, i, key) <==> Scored(d, i, key) && AlwaysHeld(d, edits, i, key)
      ensures Scored(after, i, key) ==> RowScores(after.scores, i)[key] == RowScores(d.scores, i)[key]
    {
      ScoresSurviveExactly(d, edits, i, key);
    }
    hide AfterEdits, AlwaysHeld;
    if forall i, key :: 0 <= i < |d.scores| && key in d.scores[i] && d.scores[i][key] < threshold ==>
      !AlwaysHeld(d, edits, i, key) {
      forall i, key | 0 <= i < |after.scores| && key in after.scores[i] ensures after.scores[i][key] >= threshold {
        assert Scored(after, i, key);
      }
    }
    if Clean(after, threshold) {
      forall i, key | 0 <= i < |d.scores| && key in d.scores[i] && d.scores[i][key] < threshold
        ensures !AlwaysHeld(d, edits, i, key) {
        assert Scored(d, i, key);
      }
    }
  }
}
