/** Turning pplacer placements into taxonomic assignments: the reference
    package's taxonomy table, merging the placement hypotheses of one read
    group, rank-by-rank voting under a confidence cutoff, and filing the
    result under each read's file suffix. */
module Classify {
  import opened Wrappers
  import opened Strings

  datatype ClassifyError =
    | EmptyTaxonomyLine     // a taxonomy line with no non-empty field
    | ShortRow              // a placement row too short for an index used on it
    | UnknownTaxon          // a placement id that the taxonomy does not hold
    | NotANumber            // a like-weight-ratio cell that is not a number
    | NoConfidentPlacement  // one id below 0.98, or no id at all
    | NothingAccepted       // voting ran through every rank and accepted none
    | EmptyVote             // voting over no hypotheses
    | MissingFields         // `like_weight_ratio` or `classification` absent
    | EmptyReadName         // a read name with no last character

  /** Taxon id to its lineage, `Root` first. */
  type Taxonomy = map<string, seq<string>>

  // ---------------------------------------------------------------------------
  // `readRefpkgTax`
  // ---------------------------------------------------------------------------

  predicate IsHeader(line: string) {
    StartsWith(line, "tax_id")
  }

  /** The non-empty comma-separated fields of a line, trailing whitespace
      removed first. */
  function TaxFields(line: string): (r: seq<string>)
    ensures forall f <- r :: f != "" && ',' !in f
  {
    SplitJoin(RStrip(line), ',');
    NonEmpty(SplitWhere(RStrip(line), c => c == ','))
  }

  /** The fields come back from a line written as those fields joined by
      commas and followed by trailing whitespace: they are the line's
      non-empty comma-separated pieces, in order. */
  lemma TaxFieldsOfJoin(fields: seq<string>, ws: string)
    requires fields != [] && forall f <- fields :: f != "" && ',' !in f
    requires fields[|fields| - 1] != "" && !IsSpace(Last(fields[|fields| - 1]))
    requires forall c <- ws :: IsSpace(c)
    ensures TaxFields(JoinWith(fields, ',') + ws) == fields
  {
    var line := JoinWith(fields, ',');
    JoinWithLast(fields, ',');
    RStripAppend(line, ws);
    assert RStrip(line + ws) == line;
    SplitOfJoin(fields, ',');
    NonEmptyAll(fields);
  }

  /** `['Root'] + line[5:]`. */
  function Lineage(fields: seq<string>): (r: seq<string>)
    ensures |r| >= 1 && r[0] == "Root"
    ensures |fields| >= 5 ==> r[1..] == fields[5..]
    ensures |fields| < 5 ==> r == ["Root"]
  {
    ["Root"] + (if |fields| >= 5 then fields[5..] else [])
  }

  /** The table read from `lines` on top of `acc`: header lines are skipped,
      and each other line maps its first field to its lineage, overwriting
      an earlier line with the same first field. A line with no field
      fails. */
  function TaxFrom(acc: Taxonomy, lines: seq<string>): Result<Taxonomy, ClassifyError>
    decreases |lines|
  {
    if lines == [] then Ok(acc)
    else if IsHeader(lines[0]) then TaxFrom(acc, lines[1..])
    else
      var fields := TaxFields(lines[0]);
      if fields == [] then Err(EmptyTaxonomyLine)
      else TaxFrom(acc[fields[0] := Lineage(fields)], lines[1..])
  }

  function ReadRefpkgTax(lines: seq<string>): Result<Taxonomy, ClassifyError> {
    TaxFrom(map[], lines)
  }

  /** One line applied to a table read so far. */
  function TaxLine(t: Result<Taxonomy, ClassifyError>, line: string): Result<Taxonomy, ClassifyError> {
    if t.Err? || IsHeader(line) then t
    else
      var fields := TaxFields(line);
      if fields == [] then Err(EmptyTaxonomyLine) else Ok(t.value[fields[0] := Lineage(fields)])
  }

  /** Reading one more line is applying it to what the earlier lines gave:
      a later line overwrites the entry of an earlier one with the same
      first field, and a header line changes nothing. */
  lemma {:induction false} TaxFromAppend(acc: Taxonomy, lines: seq<string>, line: string)
    ensures TaxFrom(acc, lines + [line]) == TaxLine(TaxFrom(acc, lines), line)
    decreases |lines|
  {
    if lines == [] {
      assert [line][1..] == [];
    } else {
      assert (lines + [line])[1..] == lines[1..] + [line];
      var fields := TaxFields(lines[0]);
      if IsHeader(lines[0]) {
        TaxFromAppend(acc, lines[1..], line);
      } else if fields != [] {
        TaxFromAppend(acc[fields[0] := Lineage(fields)], lines[1..], line);
      }
    }
  }

  /** Reading fails exactly when a non-header line has no field. */
  lemma {:induction false} TaxFromOk(acc: Taxonomy, lines: seq<string>)
    ensures TaxFrom(acc, lines).Ok? <==>
              forall j :: 0 <= j < |lines| && !IsHeader(lines[j]) ==> TaxFields(lines[j]) != []
    decreases |lines|
  {
    if lines != [] {
      var fields := TaxFields(lines[0]);
      var next := if IsHeader(lines[0]) || fields == [] then acc else acc[fields[0] := Lineage(fields)];
      TaxFromOk(next, lines[1..]);
      assert forall j :: 0 < j < |lines| ==> lines[1..][j - 1] == lines[j];
    }
  }

  /** Some non-header line has `key` as its first field. */
  predicate Names(lines: seq<string>, key: string) {
    exists j :: 0 <= j < |lines| && !IsHeader(lines[j]) && TaxFields(lines[j]) != [] && TaxFields(lines[j])[0] == key
  }

  lemma NamesCons(lines: seq<string>, key: string)
    requires lines != []
    ensures Names(lines, key) <==>
              (!IsHeader(lines[0]) && TaxFields(lines[0]) != [] && TaxFields(lines[0])[0] == key) || Names(lines[1..], key)
  {
    var tail := lines[1..];
    if Names(lines, key) {
      var j :| 0 <= j < |lines| && !IsHeader(lines[j]) && TaxFields(lines[j]) != [] && TaxFields(lines[j])[0] == key;
      if j > 0 { assert tail[j - 1] == lines[j]; }
    }
    if Names(tail, key) {
      var j :| 0 <= j < |tail| && !IsHeader(tail[j]) && TaxFields(tail[j]) != [] && TaxFields(tail[j])[0] == key;
      assert lines[j + 1] == tail[j];
    }
  }

  /** The keys read are those held before plus the first field of every
      non-header line. */
  lemma {:induction false} TaxFromKeys(acc: Taxonomy, lines: seq<string>)
    requires TaxFrom(acc, lines).Ok?
    ensures forall key :: key in TaxFrom(acc, lines).value <==> key in acc || Names(lines, key)
    decreases |lines|
  {
    if lines != [] {
      var fields := TaxFields(lines[0]);
      var next := if IsHeader(lines[0]) then acc else acc[fields[0] := Lineage(fields)];
      TaxFromKeys(next, lines[1..]);
      forall key ensures Names(lines, key) <==>
          (!IsHeader(lines[0]) && fields != [] && fields[0] == key) || Names(lines[1..], key)
      {
        NamesCons(lines, key);
      }
    }
  }

  /** Every lineage read starts at `Root`. */
  lemma {:induction false} TaxFromRoot(acc: Taxonomy, lines: seq<string>)
    requires TaxFrom(acc, lines).Ok?
    requires forall key :: key in acc ==> acc[key] != [] && acc[key][0] == "Root"
    ensures forall key :: key in TaxFrom(acc, lines).value ==>
              TaxFrom(acc, lines).value[key] != [] && TaxFrom(acc, lines).value[key][0] == "Root"
    decreases |lines|
  {
    if lines != [] {
      var fields := TaxFields(lines[0]);
      var next := if IsHeader(lines[0]) then acc else acc[fields[0] := Lineage(fields)];
      TaxFromRoot(next, lines[1..]);
    }
  }

  // ---------------------------------------------------------------------------
  // `consolidatePlacements`: merging hypotheses by id
  // ---------------------------------------------------------------------------

  /** A cell of a placement row, as JSON holds it. */
  datatype Value = Text(s: string) | Number(x: real)

  type Row = seq<Value>

  /** A merged hypothesis: summed like-weight ratio `c` and lineage `p`. */
  datatype Hypothesis = Hypothesis(c: real, p: seq<string>)

  /** The `seen` dictionary: the ids in the order first seen and what each
      holds. */
  datatype Seen = Seen(ids: seq<string>, hyps: map<string, Hypothesis>)

  /** The ids listed once each, exactly the keys, with the lineage looked up
      in the taxonomy. */
  predicate SeenValid(s: Seen, taxonomy: Taxonomy) {
    && Distinct(s.ids)
    && (forall k :: 0 <= k < |s.ids| ==> s.ids[k] in s.hyps)
    && (forall id :: id in s.hyps ==> id in s.ids)
    && (forall id :: id in s.hyps ==> id in taxonomy && s.hyps[id].p == taxonomy[id])
  }

  /** A row the merge can use: long enough for both indices, a known id in
      column 0 and a number in the like-weight-ratio column. */
  predicate RowOk(taxonomy: Taxonomy, row: Row, lwrIdx: nat) {
    && 0 < |row| && lwrIdx < |row|
    && row[0].Text? && row[0].s in taxonomy
    && row[lwrIdx].Number?
  }

  predicate RowsOk(taxonomy: Taxonomy, rows: seq<Row>, lwrIdx: nat) {
    forall k :: 0 <= k < |rows| ==> RowOk(taxonomy, rows[k], lwrIdx)
  }

  /** The ids named in column 0. */
  function RowIds(rows: seq<Row>): set<string> {
    set k | 0 <= k < |rows| && rows[k] != [] && rows[k][0].Text? :: rows[k][0].s
  }

  /** One row merged into `seen`. An id seen before adds its confidence;
      a new one is looked up in the taxonomy then and only then. */
  function SeenStep(taxonomy: Taxonomy, s: Seen, row: Row, lwrIdx: nat): (r: Result<Seen, ClassifyError>)
    requires SeenValid(s, taxonomy)
    ensures r.Ok? <==> RowOk(taxonomy, row, lwrIdx)
    ensures r.Ok? ==> SeenValid(r.value, taxonomy)
    ensures r.Err? ==> r.error in {ShortRow, UnknownTaxon, NotANumber}
  {
    if |row| == 0 || lwrIdx >= |row| then Err(ShortRow)
    else if !row[0].Text? || (row[0].s !in s.hyps && row[0].s !in taxonomy) then Err(UnknownTaxon)
    else if !row[lwrIdx].Number? then Err(NotANumber)
    else
      var id, c := row[0].s, row[lwrIdx].x;
      if id in s.hyps then Ok(s.(hyps := s.hyps[id := s.hyps[id].(c := s.hyps[id].c + c)]))
      else Ok(Seen(s.ids + [id], s.hyps[id := Hypothesis(c, taxonomy[id])]))
  }

  /** The rows merged in order; the first unusable row stops the merge. */
  function SeenFrom(taxonomy: Taxonomy, s: Seen, rows: seq<Row>, lwrIdx: nat): (r: Result<Seen, ClassifyError>)
    requires SeenValid(s, taxonomy)
    ensures r.Ok? <==> RowsOk(taxonomy, rows, lwrIdx)
    ensures r.Ok? ==> SeenValid(r.value, taxonomy)
    ensures r.Err? ==> r.error in {ShortRow, UnknownTaxon, NotANumber}
    decreases |rows|
  {
    if rows == [] then Ok(s)
    else
      assert forall k :: 0 <= k < |rows| - 1 ==> rows[1..][k] == rows[k + 1];
      match SeenStep(taxonomy, s, rows[0], lwrIdx)
      case Err(e) => Err(e)
      case Ok(next) => SeenFrom(taxonomy, next, rows[1..], lwrIdx)
  }

  /** The summed like-weight ratio of the rows naming `id`. */
  function Confidence(rows: seq<Row>, id: string, lwrIdx: nat): real
    requires forall k :: 0 <= k < |rows| ==> lwrIdx < |rows[k]| && rows[k][lwrIdx].Number?
  {
    if rows == [] then 0.0
    else (if rows[0][0] == Text(id) then rows[0][lwrIdx].x else 0.0) + Confidence(rows[1..], id, lwrIdx)
  }

  lemma RowIdsCons(rows: seq<Row>)
    requires rows != [] && rows[0] != [] && rows[0][0].Text?
    ensures RowIds(rows) == {rows[0][0].s} + RowIds(rows[1..])
  {
    var tail := rows[1..];
    forall id | id in RowIds(rows) ensures id in {rows[0][0].s} + RowIds(tail) {
      var k :| 0 <= k < |rows| && rows[k] != [] && rows[k][0].Text? && rows[k][0].s == id;
      if k > 0 { assert tail[k - 1] == rows[k]; }
    }
    forall id | id in RowIds(tail) ensures id in RowIds(rows) {
      var k :| 0 <= k < |tail| && tail[k] != [] && tail[k][0].Text? && tail[k][0].s == id;
      assert rows[k + 1] == tail[k];
    }
  }

  /** After a merge of usable rows the ids held are those held before plus
      those the rows name. */
  lemma {:induction false} SeenFromKeys(taxonomy: Taxonomy, s: Seen, rows: seq<Row>, lwrIdx: nat)
    requires SeenValid(s, taxonomy) && RowsOk(taxonomy, rows, lwrIdx)
    ensures SeenFrom(taxonomy, s, rows, lwrIdx).Ok?
    ensures forall id :: id in SeenFrom(taxonomy, s, rows, lwrIdx).value.hyps <==> id in s.hyps || id in RowIds(rows)
    decreases |rows|
  {
    if rows != [] {
      var next := SeenStep(taxonomy, s, rows[0], lwrIdx).value;
      assert RowsOk(taxonomy, rows[1..], lwrIdx) by {
        assert forall k :: 0 <= k < |rows| - 1 ==> rows[1..][k] == rows[k + 1];
      }
      SeenFromKeys(taxonomy, next, rows[1..], lwrIdx);
      RowIdsCons(rows);
    }
  }

  /** ... and each id holds the sum of its rows' confidences on top of what
      it held before. */
  lemma {:induction false} SeenFromSums(taxonomy: Taxonomy, s: Seen, rows: seq<Row>, lwrIdx: nat)
    requires SeenValid(s, taxonomy) && RowsOk(taxonomy, rows, lwrIdx)
    ensures SeenFrom(taxonomy, s, rows, lwrIdx).Ok?
    ensures var r := SeenFrom(taxonomy, s, rows, lwrIdx).value;
            forall id :: id in r.hyps ==>
              r.hyps[id].c == (if id in s.hyps then s.hyps[id].c else 0.0) + Confidence(rows, id, lwrIdx)
    decreases |rows|
  {
    if rows != [] {
      var next := SeenStep(taxonomy, s, rows[0], lwrIdx).value;
      assert RowsOk(taxonomy, rows[1..], lwrIdx) by {
        assert forall k :: 0 <= k < |rows| - 1 ==> rows[1..][k] == rows[k + 1];
      }
      SeenFromSums(taxonomy, next, rows[1..], lwrIdx);
      SeenFromKeys(taxonomy, next, rows[1..], lwrIdx);
    }
  }

  /** The hypotheses in the order their ids were first seen. */
  function Values(ids: seq<string>, hyps: map<string, Hypothesis>): (r: seq<Hypothesis>)
    requires forall k :: 0 <= k < |ids| ==> ids[k] in hyps
    ensures |r| == |ids| && forall k :: 0 <= k < |ids| ==> r[k] == hyps[ids[k]]
  {
    if ids == [] then [] else [hyps[ids[0]]] + Values(ids[1..], hyps)
  }

  /** A taxonomic assignment: one label and one confidence per rank. */
  datatype Assignment = Assignment(placement: seq<string>, confidence: seq<real>)

  const FullConfidence: real := 0.98

  /** The whole of `consolidatePlacements`: one id with at least 0.98 gives
      its lineage outright, two or more ids are voted on, and anything else
      fails. */
  function Consolidate(taxonomy: Taxonomy, rows: seq<Row>, cutoff: real, lwrIdx: nat): (r: Result<Assignment, ClassifyError>)
    ensures r.Ok? ==> |r.value.placement| == |r.value.confidence|
    ensures r.Err? ==> (r.error in {ShortRow, UnknownTaxon, NotANumber} <==> !RowsOk(taxonomy, rows, lwrIdx))
    ensures r.Err? ==> r.error in {ShortRow, UnknownTaxon, NotANumber, NoConfidentPlacement, NothingAccepted}
  {
    match SeenFrom(taxonomy, Seen([], map[]), rows, lwrIdx)
    case Err(e) => Err(e)
    case Ok(s) => Decide(s, cutoff)
  }

  /** The decision after the merge loop. */
  function Decide(s: Seen, cutoff: real): (r: Result<Assignment, ClassifyError>)
    requires forall k :: 0 <= k < |s.ids| ==> s.ids[k] in s.hyps
    ensures r.Ok? ==> |r.value.placement| == |r.value.confidence|
    ensures r.Err? ==> r.error in {NoConfidentPlacement, NothingAccepted}
    ensures r == Err(NoConfidentPlacement) <==> |s.ids| == 0 || (|s.ids| == 1 && s.hyps[s.ids[0]].c < FullConfidence)
  {
    if |s.ids| == 1 && s.hyps[s.ids[0]].c >= FullConfidence then
      var h := s.hyps[s.ids[0]];
      Ok(Assignment(h.p, seq(|h.p|, _ => h.c)))
    else if |s.ids| > 1 then
      ReduceOutcome(Values(s.ids, s.hyps), cutoff);
      ReduceTaxString(Values(s.ids, s.hyps), cutoff)
    else Err(NoConfidentPlacement)
  }

  /** Which ids a merge of usable rows holds: exactly those the rows name. */
  lemma SeenIds(taxonomy: Taxonomy, rows: seq<Row>, lwrIdx: nat)
    requires RowsOk(taxonomy, rows, lwrIdx)
    ensures SeenFrom(taxonomy, Seen([], map[]), rows, lwrIdx).Ok?
    ensures var s := SeenFrom(taxonomy, Seen([], map[]), rows, lwrIdx).value;
            && (forall id :: id in s.hyps <==> id in RowIds(rows))
            && (forall id :: id in s.hyps ==> s.hyps[id].c == Confidence(rows, id, lwrIdx) && s.hyps[id].p == taxonomy[id])
  {
    SeenFromKeys(taxonomy, Seen([], map[]), rows, lwrIdx);
    SeenFromSums(taxonomy, Seen([], map[]), rows, lwrIdx);
  }

  /** The merge step's generic failure is raised exactly when the rows name
      no id, or a single id whose summed confidence is below 0.98. */
  lemma ConsolidateGeneric(taxonomy: Taxonomy, rows: seq<Row>, cutoff: real, lwrIdx: nat)
    requires RowsOk(taxonomy, rows, lwrIdx)
    ensures Consolidate(taxonomy, rows, cutoff, lwrIdx) == Err(NoConfidentPlacement) <==>
              RowIds(rows) == {} || exists id :: RowIds(rows) == {id} && Confidence(rows, id, lwrIdx) < FullConfidence
  {
    SeenIds(taxonomy, rows, lwrIdx);
    var s := SeenFrom(taxonomy, Seen([], map[]), rows, lwrIdx).value;
    assert Consolidate(taxonomy, rows, cutoff, lwrIdx) == Decide(s, cutoff);
    IdsOfSeen(s, taxonomy, RowIds(rows));
    if |s.ids| == 1 {
      assert RowIds(rows) == {s.ids[0]};
    }
  }

  /** The ids of a valid merge result, against the set of ids it holds. */
  lemma IdsOfSeen(s: Seen, taxonomy: Taxonomy, ids: set<string>)
    requires SeenValid(s, taxonomy)
    requires forall id :: id in s.hyps <==> id in ids
    ensures |s.ids| == 0 <==> ids == {}
    ensures |s.ids| == 1 ==> ids == {s.ids[0]}
    ensures |s.ids| > 1 ==> forall id :: ids != {id}
  {
    if |s.ids| == 0 {
      assert forall id :: id !in ids;
    } else if |s.ids| == 1 {
      assert s.ids[0] in ids;
    } else {
      assert s.ids[0] != s.ids[1] && s.ids[0] in ids && s.ids[1] in ids;
    }
  }

  /** A single id with summed confidence of at least 0.98 gives its whole
      lineage, with that sum as the confidence of every rank. */
  lemma ConsolidateFull(taxonomy: Taxonomy, rows: seq<Row>, cutoff: real, lwrIdx: nat, id: string)
    requires RowsOk(taxonomy, rows, lwrIdx)
    requires RowIds(rows) == {id} && Confidence(rows, id, lwrIdx) >= FullConfidence
    ensures var a := Consolidate(taxonomy, rows, cutoff, lwrIdx);
            && a.Ok? && a.value.placement == taxonomy[id]
            && forall k :: 0 <= k < |a.value.confidence| ==> a.value.confidence[k] == Confidence(rows, id, lwrIdx)
  {
    SeenIds(taxonomy, rows, lwrIdx);
    var s := SeenFrom(taxonomy, Seen([], map[]), rows, lwrIdx).value;
    assert s.ids[0] == id;
  }

  /** One row merged as the source does it, updating the dictionary in
      place. */
  method MergeRow(taxonomy: Taxonomy, ids: seq<string>, seen: map<string, Hypothesis>, row: Row, lwrIdx: nat)
    returns (r: Result<Seen, ClassifyError>)
    requires SeenValid(Seen(ids, seen), taxonomy)
    ensures r == SeenStep(taxonomy, Seen(ids, seen), row, lwrIdx)
  {
    if |row| == 0 || lwrIdx >= |row| {
      return Err(ShortRow);
    }
    var rank := row[0];
    var confidence := row[lwrIdx];
    if !rank.Text? || (rank.s !in seen && rank.s !in taxonomy) {
      return Err(UnknownTaxon);
    }
    if !confidence.Number? {
      return Err(NotANumber);
    }
    var newIds, newSeen := ids, seen;
    if rank.s !in seen {
      newIds := ids + [rank.s];
      newSeen := seen[rank.s := Hypothesis(confidence.x, taxonomy[rank.s])];
    } else {
      newSeen := seen[rank.s := seen[rank.s].(c := seen[rank.s].c + confidence.x)];
    }
    r := Ok(Seen(newIds, newSeen));
  }

  /** The merge loop as the source writes it, followed by its decision. */
  method ConsolidatePlacements(taxonomy: Taxonomy, rows: seq<Row>, cutoff: real, lwrIdx: nat)
    returns (r: Result<Assignment, ClassifyError>)
    ensures r == Consolidate(taxonomy, rows, cutoff, lwrIdx)
  {
    var ids: seq<string> := [];
    var seen: map<string, Hypothesis> := map[];
    ghost var whole := SeenFrom(taxonomy, Seen(ids, seen), rows, lwrIdx);
    for i := 0 to |rows|
      invariant SeenValid(Seen(ids, seen), taxonomy)
      invariant SeenFrom(taxonomy, Seen(ids, seen), rows[i..], lwrIdx) == whole
    {
      assert rows[i..][1..] == rows[i + 1..];
      var step := MergeRow(taxonomy, ids, seen, rows[i], lwrIdx);
      if step.Err? {
        return Err(step.error);
      }
      ids, seen := step.value.ids, step.value.hyps;
    }
    assert rows[|rows|..] == [];
    assert whole.Ok? ==> whole.value == Seen(ids, seen);
    if |ids| == 1 && seen[ids[0]].c >= FullConfidence {
      var h := seen[ids[0]];
      r := Ok(Assignment(h.p, seq(|h.p|, _ => h.c)));
    } else if |ids| > 1 {
      r := ReduceTaxStringLoop(Values(ids, seen), cutoff);
    } else {
      r := Err(NoConfidentPlacement);
    }
  }

  // ---------------------------------------------------------------------------
  // `reduceTaxString`: voting rank by rank
  // ---------------------------------------------------------------------------

  /** Python's order on `(confidence, label)` pairs. */
  predicate PairLt(a: (real, string), b: (real, string)) {
    a.0 < b.0 || (a.0 == b.0 && StrLt(a.1, b.1))
  }

  predicate PathLt(a: seq<string>, b: seq<string>) {
    LexLt(a, b, StrLt)
  }

  /** `max` of the lineages, compared as Python compares lists. */
  function MaxPath(hyps: seq<Hypothesis>): (r: seq<string>)
    requires hyps != []
    ensures exists k :: 0 <= k < |hyps| && r == hyps[k].p
    ensures forall k :: 0 <= k < |hyps| ==> !PathLt(r, hyps[k].p)
  {
    if |hyps| == 1 then
      PathIrreflexive(hyps[0].p);
      hyps[0].p
    else
      var m := MaxPath(hyps[..|hyps| - 1]);
      var last := hyps[|hyps| - 1].p;
      MaxPathStep(hyps, m, last);
      PathIrreflexive(last);
      if PathLt(m, last) then last else m
  }

  lemma PathIrreflexive(a: seq<string>)
    ensures !PathLt(a, a)
  {
    StrLtIsStrictTotalOrder();
    LexLtIrreflexive(a, StrLt);
  }

  lemma MaxPathStep(hyps: seq<Hypothesis>, m: seq<string>, last: seq<string>)
    requires |hyps| > 1 && last == hyps[|hyps| - 1].p
    requires forall k :: 0 <= k < |hyps| - 1 ==> !PathLt(m, hyps[k].p)
    ensures PathLt(m, last) ==> forall k :: 0 <= k < |hyps| - 1 ==> !PathLt(last, hyps[k].p)
  {
    if PathLt(m, last) {
      StrLtIsStrictTotalOrder();
      forall k | 0 <= k < |hyps| - 1 ensures !PathLt(last, hyps[k].p) {
        if PathLt(last, hyps[k].p) {
          LexLtTransitive(m, last, hyps[k].p, StrLt);
        }
      }
    }
  }

  /** Every lineage reaches rank `i`; otherwise the source's list of labels
      raises IndexError and the rank is skipped. */
  predicate Covers(hyps: seq<Hypothesis>, i: nat) {
    forall k :: 0 <= k < |hyps| ==> i < |hyps[k].p|
  }

  function Labels(hyps: seq<Hypothesis>, i: nat): set<string>
    requires Covers(hyps, i)
  {
    set k | 0 <= k < |hyps| :: hyps[k].p[i]
  }

  /** The summed confidence of the hypotheses labelled `l` at rank `i`. */
  function LabelSum(hyps: seq<Hypothesis>, i: nat, l: string): real
    requires Covers(hyps, i)
  {
    if hyps == [] then 0.0
    else
      var init := hyps[..|hyps| - 1];
      var h := hyps[|hyps| - 1];
      LabelSum(init, i, l) + (if h.p[i] == l then h.c else 0.0)
  }

  /** `cumil_confidence` at rank `i`: each label with its summed confidence. */
  function Tally(hyps: seq<Hypothesis>, i: nat): map<string, real>
    requires Covers(hyps, i)
  {
    map l | l in Labels(hyps, i) :: LabelSum(hyps, i, l)
  }

  /** The largest `(tally, label)` pair among the labels of the first `j`
      hypotheses, as Python's `max` finds it. */
  function BestUpTo(hyps: seq<Hypothesis>, i: nat, j: nat): (b: (real, string))
    requires Covers(hyps, i) && 1 <= j <= |hyps|
    ensures exists k :: 0 <= k < j && b.1 == hyps[k].p[i]
    ensures b.1 in Tally(hyps, i) && b.0 == Tally(hyps, i)[b.1]
    ensures forall k :: 0 <= k < j ==> !PairLt(b, (Tally(hyps, i)[hyps[k].p[i]], hyps[k].p[i]))
  {
    var t := Tally(hyps, i);
    var l := hyps[j - 1].p[i];
    assert l in Labels(hyps, i);
    var cand := (t[l], l);
    StrLtIsStrictTotalOrder();
    if j == 1 then cand
    else
      var b := BestUpTo(hyps, i, j - 1);
      PairStep(hyps, i, j, b, cand);
      if PairLt(b, cand) then cand else b
  }

  lemma PairStep(hyps: seq<Hypothesis>, i: nat, j: nat, b: (real, string), cand: (real, string))
    requires Covers(hyps, i) && 1 < j <= |hyps|
    requires forall k :: 0 <= k < j - 1 ==> hyps[k].p[i] in Tally(hyps, i)
    requires forall k :: 0 <= k < j - 1 ==> !PairLt(b, (Tally(hyps, i)[hyps[k].p[i]], hyps[k].p[i]))
    ensures PairLt(b, cand) ==>
              forall k :: 0 <= k < j - 1 ==> !PairLt(cand, (Tally(hyps, i)[hyps[k].p[i]], hyps[k].p[i]))
  {
    if PairLt(b, cand) {
      StrLtIsStrictTotalOrder();
      forall k | 0 <= k < j - 1 ensures !PairLt(cand, (Tally(hyps, i)[hyps[k].p[i]], hyps[k].p[i])) {
        PairTransitive(b, cand, (Tally(hyps, i)[hyps[k].p[i]], hyps[k].p[i]));
      }
    }
  }

  lemma PairTransitive(a: (real, string), b: (real, string), c: (real, string))
    requires StrictTotalOrder(StrLt)
    ensures PairLt(a, b) && PairLt(b, c) ==> PairLt(a, c)
  {
  }

  /** The outcome of one rank's vote: nothing when some lineage is too
      short, otherwise the winning `(confidence, label)`. */
  function Vote(hyps: seq<Hypothesis>, i: nat): Option<(real, string)>
    requires hyps != []
  {
    if Covers(hyps, i) then Some(BestUpTo(hyps, i, |hyps|)) else None
  }

  /** The winner of a vote carries the highest summed confidence of any
      label at that rank, and among labels tied with it the greatest. */
  lemma VoteIsMaximum(hyps: seq<Hypothesis>, i: nat)
    requires hyps != [] && Vote(hyps, i).Some?
    ensures var b := Vote(hyps, i).value;
            && b.1 in Tally(hyps, i) && b.0 == Tally(hyps, i)[b.1]
            && forall l :: l in Tally(hyps, i) ==>
                 Tally(hyps, i)[l] < b.0 || (Tally(hyps, i)[l] == b.0 && !StrLt(b.1, l))
  {
    var b := Vote(hyps, i).value;
    forall l | l in Tally(hyps, i)
      ensures Tally(hyps, i)[l] < b.0 || (Tally(hyps, i)[l] == b.0 && !StrLt(b.1, l))
    {
      var k :| 0 <= k < |hyps| && hyps[k].p[i] == l;
    }
  }

  /** The outcome of every rank's vote, up to the length of the greatest
      lineage. */
  function Votes(hyps: seq<Hypothesis>): (r: seq<Option<(real, string)>>)
    requires hyps != []
    ensures |r| == |MaxPath(hyps)| && forall i :: 0 <= i < |r| ==> r[i] == Vote(hyps, i)
  {
    seq(|MaxPath(hyps)|, (i: int) requires 0 <= i => Vote(hyps, i))
  }

  /** The voting loop from rank `i` on, with what was accepted so far. */
  function ReduceFrom(votes: seq<Option<(real, string)>>, threshold: real, i: nat, acc: Assignment): Result<Assignment, ClassifyError>
    decreases |votes| - i
  {
    if i >= |votes| then
      if acc.placement != [] then Ok(acc) else Err(NothingAccepted)
    else match votes[i]
      case None => ReduceFrom(votes, threshold, i + 1, acc)
      case Some(b) =>
        if b.0 > threshold then
          ReduceFrom(votes, threshold, i + 1, Assignment(acc.placement + [b.1], acc.confidence + [b.0]))
        else Ok(acc)
  }

  function ReduceTaxString(hyps: seq<Hypothesis>, threshold: real): Result<Assignment, ClassifyError> {
    if hyps == [] then Err(EmptyVote)
    else ReduceFrom(Votes(hyps), threshold, 0, Assignment([], []))
  }

  /** Each accepted label won its rank's vote with a confidence strictly
      above the threshold, at ranks in increasing order. */
  predicate AcceptedBy(votes: seq<Option<(real, string)>>, threshold: real, a: Assignment, ranks: seq<nat>) {
    && |a.placement| == |a.confidence| == |ranks|
    && (forall k :: 0 <= k < |ranks| ==> ranks[k] < |votes| && votes[ranks[k]] == Some((a.confidence[k], a.placement[k])))
    && (forall k :: 0 <= k < |ranks| ==> a.confidence[k] > threshold)
    && (forall k, m :: 0 <= k < m < |ranks| ==> ranks[k] < ranks[m])
  }

  /** What the loop accepts from rank `i` on extends what it had accepted. */
  lemma {:induction false} ReduceFromAccepted(votes: seq<Option<(real, string)>>, threshold: real, i: nat, acc: Assignment, ranks: seq<nat>)
    requires AcceptedBy(votes, threshold, acc, ranks)
    requires forall k :: 0 <= k < |ranks| ==> ranks[k] < i
    ensures ReduceFrom(votes, threshold, i, acc).Ok? ==>
              exists more :: AcceptedBy(votes, threshold, ReduceFrom(votes, threshold, i, acc).value, more)
    decreases |votes| - i
  {
    if i < |votes| {
      match votes[i]
      case None =>
        ReduceFromAccepted(votes, threshold, i + 1, acc, ranks);
      case Some(b) =>
        if b.0 > threshold {
          var next := Assignment(acc.placement + [b.1], acc.confidence + [b.0]);
          assert AcceptedBy(votes, threshold, next, ranks + [i]);
          ReduceFromAccepted(votes, threshold, i + 1, next, ranks + [i]);
        } else {
          assert AcceptedBy(votes, threshold, acc, ranks);
        }
    } else if acc.placement != [] {
      assert AcceptedBy(votes, threshold, acc, ranks);
    }
  }

  /** The loop fails only when nothing was accepted and no rank from `i` on
      could be voted on. */
  lemma {:induction false} ReduceFromNothing(votes: seq<Option<(real, string)>>, threshold: real, i: nat, acc: Assignment)
    ensures ReduceFrom(votes, threshold, i, acc) == Err(NothingAccepted) <==>
              acc.placement == [] && forall j :: i <= j < |votes| ==> votes[j].None?
    ensures ReduceFrom(votes, threshold, i, acc).Err? ==> ReduceFrom(votes, threshold, i, acc) == Err(NothingAccepted)
    decreases |votes| - i
  {
    if i < |votes| {
      match votes[i]
      case None =>
        ReduceFromNothing(votes, threshold, i + 1, acc);
      case Some(b) =>
        if b.0 > threshold {
          ReduceFromNothing(votes, threshold, i + 1, Assignment(acc.placement + [b.1], acc.confidence + [b.0]));
        }
    }
  }

  /** Voting stops at rank `m`: its winner is not above the threshold. */
  predicate Stops(votes: seq<Option<(real, string)>>, threshold: real, m: nat)
    requires m < |votes|
  {
    votes[m].Some? && votes[m].value.0 <= threshold
  }

  /** Rank `j` is voted on and no rank up to it stops the loop. */
  predicate Reached(votes: seq<Option<(real, string)>>, threshold: real, j: nat)
    requires j < |votes|
  {
    votes[j].Some? && forall m :: 0 <= m <= j ==> !Stops(votes, threshold, m)
  }

  /** The loop accepts exactly the voted ranks before the first rank that
      stops it. */
  lemma {:induction false} ReduceFromRanks(votes: seq<Option<(real, string)>>, threshold: real, i: nat, acc: Assignment, ranks: seq<nat>)
    requires i <= |votes| && AcceptedBy(votes, threshold, acc, ranks)
    requires forall k :: 0 <= k < |ranks| ==> ranks[k] < i
    requires forall m :: 0 <= m < i ==> !Stops(votes, threshold, m)
    requires forall j :: 0 <= j < i ==> (j in ranks <==> votes[j].Some?)
    ensures ReduceFrom(votes, threshold, i, acc).Ok? ==>
              exists more :: && AcceptedBy(votes, threshold, ReduceFrom(votes, threshold, i, acc).value, more)
                             && forall j :: 0 <= j < |votes| ==> (j in more <==> Reached(votes, threshold, j))
    decreases |votes| - i
  {
    if i == |votes| {
      assert forall j :: 0 <= j < |votes| ==> (j in ranks <==> Reached(votes, threshold, j));
    } else {
      match votes[i]
      case None =>
        assert forall k :: 0 <= k < |ranks| ==> ranks[k] != i;
        ReduceFromRanks(votes, threshold, i + 1, acc, ranks);
      case Some(b) =>
        if b.0 > threshold {
          var next := Assignment(acc.placement + [b.1], acc.confidence + [b.0]);
          assert AcceptedBy(votes, threshold, next, ranks + [i]);
          ReduceFromRanks(votes, threshold, i + 1, next, ranks + [i]);
        } else {
          assert Stops(votes, threshold, i);
          forall j | 0 <= j < |votes|
            ensures j in ranks <==> Reached(votes, threshold, j)
          {
            if j >= i {
              assert j !in ranks;
              assert !Reached(votes, threshold, j);
            }
          }
        }
    }
  }

  /** What voting returns: equally long label and confidence lists whose
      entries won their ranks' votes above the threshold, in rank order;
      and "Programming error." exactly when no rank could be voted on. */
  lemma ReduceShape(hyps: seq<Hypothesis>, threshold: real)
    ensures ReduceTaxString(hyps, threshold) == Err(EmptyVote) <==> hyps == []
    ensures hyps != [] && ReduceTaxString(hyps, threshold).Ok? ==>
              exists ranks :: AcceptedBy(Votes(hyps), threshold, ReduceTaxString(hyps, threshold).value, ranks)
    ensures hyps != [] && ReduceTaxString(hyps, threshold).Ok? ==>
              exists ranks :: && AcceptedBy(Votes(hyps), threshold, ReduceTaxString(hyps, threshold).value, ranks)
                              && forall j :: 0 <= j < |Votes(hyps)| ==> (j in ranks <==> Reached(Votes(hyps), threshold, j))
    ensures hyps != [] ==>
              (ReduceTaxString(hyps, threshold) == Err(NothingAccepted) <==>
                 forall i :: 0 <= i < |MaxPath(hyps)| ==> Vote(hyps, i).None?)
  {
    if hyps != [] {
      var votes := Votes(hyps);
      assert AcceptedBy(votes, threshold, Assignment([], []), []);
      ReduceFromAccepted(votes, threshold, 0, Assignment([], []), []);
      ReduceFromRanks(votes, threshold, 0, Assignment([], []), []);
      ReduceFromNothing(votes, threshold, 0, Assignment([], []));
    }
  }

  /** Voting over some hypotheses fails only with "Programming error.",
      and otherwise gives as many confidences as labels. */
  lemma ReduceOutcome(hyps: seq<Hypothesis>, threshold: real)
    requires hyps != []
    ensures ReduceTaxString(hyps, threshold).Err? ==> ReduceTaxString(hyps, threshold).error == NothingAccepted
    ensures ReduceTaxString(hyps, threshold).Ok? ==>
              |ReduceTaxString(hyps, threshold).value.placement| == |ReduceTaxString(hyps, threshold).value.confidence|
  {
    var votes := Votes(hyps);
    assert AcceptedBy(votes, threshold, Assignment([], []), []);
    ReduceFromAccepted(votes, threshold, 0, Assignment([], []), []);
    ReduceFromNothing(votes, threshold, 0, Assignment([], []));
  }

  /** Adding one more hypothesis to the tally of a prefix. */
  lemma TallyStep(hyps: seq<Hypothesis>, i: nat, j: nat)
    requires j < |hyps| && Covers(hyps, i)
    ensures Covers(hyps[..j], i) && Covers(hyps[..j + 1], i)
    ensures var t := Tally(hyps[..j], i);
            var l := hyps[j].p[i];
            Tally(hyps[..j + 1], i) == if l in t then t[l := t[l] + hyps[j].c] else t[l := hyps[j].c]
  {
    var pre, cur := hyps[..j], hyps[..j + 1];
    assert cur[..j] == pre && cur[j] == hyps[j];
    TallyAppend(pre, cur, i);
  }

  /** The tally of `pre` plus one hypothesis. */
  lemma TallyAppend(pre: seq<Hypothesis>, cur: seq<Hypothesis>, i: nat)
    requires |cur| == |pre| + 1 && cur[..|pre|] == pre && Covers(cur, i)
    ensures Covers(pre, i)
    ensures var t := Tally(pre, i);
            var h := cur[|pre|];
            Tally(cur, i) == if h.p[i] in t then t[h.p[i] := t[h.p[i]] + h.c] else t[h.p[i] := h.c]
  {
    assert forall k :: 0 <= k < |pre| ==> pre[k] == cur[k];
    var t := Tally(pre, i);
    var l := cur[|pre|].p[i];
    var expected := if l in t then t[l := t[l] + cur[|pre|].c] else t[l := cur[|pre|].c];
    LabelsAppend(pre, cur, i);
    assert cur[..|cur| - 1] == pre;
    forall x | x in Labels(cur, i) ensures Tally(cur, i)[x] == expected[x] {
      assert LabelSum(cur, i, x) == LabelSum(pre, i, x) + (if l == x then cur[|pre|].c else 0.0);
      if x !in t {
        LabelSumAbsent(pre, i, x);
      }
    }
    assert Tally(cur, i).Keys == expected.Keys;
  }

  lemma LabelsAppend(pre: seq<Hypothesis>, cur: seq<Hypothesis>, i: nat)
    requires |cur| == |pre| + 1 && cur[..|pre|] == pre && Covers(cur, i)
    ensures Covers(pre, i)
    ensures Labels(cur, i) == Labels(pre, i) + {cur[|pre|].p[i]}
  {
    assert forall k :: 0 <= k < |pre| ==> pre[k] == cur[k];
    forall x | x in Labels(cur, i) ensures x in Labels(pre, i) + {cur[|pre|].p[i]} {
      var k :| 0 <= k < |cur| && cur[k].p[i] == x;
    }
    forall x | x in Labels(pre, i) ensures x in Labels(cur, i) {
      var k :| 0 <= k < |pre| && pre[k].p[i] == x;
    }
  }

  lemma {:induction false} LabelSumAbsent(hyps: seq<Hypothesis>, i: nat, l: string)
    requires Covers(hyps, i) && l !in Labels(hyps, i)
    ensures LabelSum(hyps, i, l) == 0.0
  {
    if hyps != [] {
      var init := hyps[..|hyps| - 1];
      assert Labels(init, i) <= Labels(hyps, i) by {
        forall x | x in Labels(init, i) ensures x in Labels(hyps, i) {
          var k :| 0 <= k < |init| && init[k].p[i] == x;
          assert hyps[k] == init[k];
        }
      }
      LabelSumAbsent(init, i, l);
      assert hyps[|hyps| - 1].p[i] in Labels(hyps, i);
    }
  }

  /** `cumil_confidence` built as the source builds it; `None` when some
      lineage does not reach rank `i` (the IndexError that skips a rank). */
  method TallyRank(hyps: seq<Hypothesis>, i: nat) returns (t: Option<map<string, real>>)
    ensures t.None? <==> !Covers(hyps, i)
    ensures t.Some? ==> Covers(hyps, i) && t.value == Tally(hyps, i)
  {
    var covered := RankCovered(hyps, i);
    if !covered {
      return None;
    }
    var cumil: map<string, real> := map[];
    assert Tally(hyps[..0], i) == cumil;
    for j := 0 to |hyps|
      invariant cumil == Tally(hyps[..j], i)
    {
      TallyStep(hyps, i, j);
      var item := hyps[j].p[i];
      if item in cumil {
        cumil := cumil[item := cumil[item] + hyps[j].c];
      } else {
        cumil := cumil[item := hyps[j].c];
      }
    }
    assert hyps[..|hyps|] == hyps;
    t := Some(cumil);
  }

  /** Whether indexing rank `i` of every lineage succeeds. */
  method RankCovered(hyps: seq<Hypothesis>, i: nat) returns (b: bool)
    ensures b <==> Covers(hyps, i)
  {
    for k := 0 to |hyps|
      invariant Covers(hyps[..k], i)
    {
      if i >= |hyps[k].p| {
        return false;
      }
    }
    assert hyps[..|hyps|] == hyps;
    b := true;
  }

  /** `max` over the tally's `(confidence, label)` pairs. */
  method BestRank(hyps: seq<Hypothesis>, i: nat, cumil: map<string, real>) returns (b: (real, string))
    requires hyps != [] && Covers(hyps, i) && cumil == Tally(hyps, i)
    ensures b == BestUpTo(hyps, i, |hyps|)
  {
    b := BestUpTo(hyps, i, 1);
    for j := 1 to |hyps|
      invariant b == BestUpTo(hyps, i, j)
    {
      var l := hyps[j].p[i];
      assert l in Labels(hyps, i);
      var cand := (cumil[l], l);
      if PairLt(b, cand) {
        b := cand;
      }
    }
  }

  /** The voting loop as the source writes it, appending to the accepted
      lists and stopping at the first rank that misses the threshold. */
  method ReduceTaxStringLoop(hyps: seq<Hypothesis>, threshold: real) returns (r: Result<Assignment, ClassifyError>)
    ensures r == ReduceTaxString(hyps, threshold)
  {
    if hyps == [] {
      return Err(EmptyVote);
    }
    var n := |MaxPath(hyps)|;
    ghost var votes := Votes(hyps);
    var placement: seq<string> := [];
    var confidence: seq<real> := [];
    for i := 0 to n
      invariant ReduceFrom(votes, threshold, i, Assignment(placement, confidence)) == ReduceTaxString(hyps, threshold)
    {
      var cumil := TallyRank(hyps, i);
      if cumil.Some? {
        var best := BestRank(hyps, i, cumil.value);
        if best.0 > threshold {
          placement := placement + [best.1];
          confidence := confidence + [best.0];
        } else {
          return Ok(Assignment(placement, confidence));
        }
      }
    }
    if placement != [] {
      r := Ok(Assignment(placement, confidence));
    } else {
      r := Err(NothingAccepted);
    }
  }

  // ---------------------------------------------------------------------------
  // `assignPlacement`: the field check and the read buckets
  // ---------------------------------------------------------------------------

  /** `fields.index(x)`: the first position holding `x`. */
  function IndexOf(fields: seq<string>, x: string): (r: Option<nat>)
    ensures r.None? <==> x !in fields
    ensures r.Some? ==> r.value < |fields| && fields[r.value] == x && x !in fields[..r.value]
  {
    var k := Find(fields, x);
    if k < |fields| then Some(k) else None
  }

  /** The positions of the like-weight-ratio and classification columns;
      both must be present. */
  function FieldIndices(fields: seq<string>): (r: Result<(nat, nat), ClassifyError>)
    ensures r.Ok? <==> "like_weight_ratio" in fields && "classification" in fields
    ensures r.Ok? ==> r.value.0 < |fields| && fields[r.value.0] == "like_weight_ratio"
                      && "like_weight_ratio" !in fields[..r.value.0]
    ensures r.Ok? ==> r.value.1 < |fields| && fields[r.value.1] == "classification"
                      && "classification" !in fields[..r.value.1]
    ensures r.Err? ==> r.error == MissingFields
  {
    var lwr := IndexOf(fields, "like_weight_ratio");
    var cls := IndexOf(fields, "classification");
    if lwr.None? || cls.None? then Err(MissingFields) else Ok((lwr.value, cls.value))
  }

  /** One placement group: its hypothesis rows and the names of its reads. */
  datatype Group = Group(p: seq<Row>, nm: seq<string>)

  /** File suffix to read name to assignment. */
  type Buckets = map<char, map<string, Assignment>>

  /** `read[:-2]`: the name without its two-character file suffix. */
  function ReadKey(read: string): (r: string)
    ensures |read| >= 2 ==> read == r + read[|read| - 2..]
    ensures |read| < 2 ==> r == ""
  {
    if |read| >= 2 then read[..|read| - 2] else ""
  }

  /** The bucket for `read[-1]` gets `read[:-2]` mapped to `a`. */
  function Store(b: Buckets, read: string, a: Assignment): (r: Buckets)
    requires read != []
    ensures Last(read) in r && ReadKey(read) in r[Last(read)] && r[Last(read)][ReadKey(read)] == a
    ensures r.Keys == b.Keys + {Last(read)}
    ensures forall f, k :: f in r && k in r[f] && (f != Last(read) || k != ReadKey(read)) ==> f in b && k in b[f] && r[f][k] == b[f][k]
    ensures forall f, k :: f in b && k in b[f] ==> f in r && k in r[f]
  {
    var f := Last(read);
    if f in b then b[f := b[f][ReadKey(read) := a]] else b[f := map[ReadKey(read) := a]]
  }

  function BucketReads(b: Buckets, names: seq<string>, a: Assignment): (r: Result<Buckets, ClassifyError>)
    ensures r.Err? ==> r == Err(EmptyReadName)
    decreases |names|
  {
    if names == [] then Ok(b)
    else if names[0] == "" then Err(EmptyReadName)
    else BucketReads(Store(b, names[0], a), names[1..], a)
  }

  /** Filing a group's names: every read lands in its bucket under its key
      with the group's assignment, and no other entry changes. */
  lemma BucketReadsLookup(b: Buckets, names: seq<string>, a: Assignment)
    ensures BucketReads(b, names, a).Ok? <==> "" !in names
    ensures BucketReads(b, names, a).Ok? ==>
              var r := BucketReads(b, names, a).value;
              && (forall read <- names :: read != [] && Last(read) in r && ReadKey(read) in r[Last(read)]
                                           && r[Last(read)][ReadKey(read)] == a)
              && (forall f, k :: f in b && k in b[f] ==> f in r && k in r[f])
              && (forall f, k :: f in r && k in r[f] && (forall read <- names :: read == [] || Last(read) != f || ReadKey(read) != k) ==>
                    f in b && k in b[f] && r[f][k] == b[f][k])
  {
    BucketReadsOk(b, names, a);
    if "" !in names {
      BucketReadsFiles(b, names, a);
      BucketReadsKeeps(b, names, a);
    }
  }

  lemma {:induction false} BucketReadsOk(b: Buckets, names: seq<string>, a: Assignment)
    ensures BucketReads(b, names, a).Ok? <==> "" !in names
    decreases |names|
  {
    if names != [] && names[0] != "" {
      BucketReadsOk(Store(b, names[0], a), names[1..], a);
      assert "" in names <==> "" in names[1..];
    } else if names != [] {
      assert "" in names;
    }
  }

  /** Every filed read is found under its bucket and key. */
  lemma {:induction false} BucketReadsFiles(b: Buckets, names: seq<string>, a: Assignment)
    requires BucketReads(b, names, a).Ok?
    ensures var r := BucketReads(b, names, a).value;
            forall read <- names :: read != [] && Last(read) in r && ReadKey(read) in r[Last(read)]
                                    && r[Last(read)][ReadKey(read)] == a
    decreases |names|
  {
    if names != [] {
      var next := Store(b, names[0], a);
      BucketReadsFiles(next, names[1..], a);
      BucketReadsKeeps(next, names[1..], a);
      assert forall read <- names :: read == names[0] || read in names[1..];
    }
  }

  /** Entries already filed stay, and those no read names keep their value. */
  lemma {:induction false} BucketReadsKeeps(b: Buckets, names: seq<string>, a: Assignment)
    requires BucketReads(b, names, a).Ok?
    ensures var r := BucketReads(b, names, a).value;
            && (forall f, k :: f in b && k in b[f] ==> f in r && k in r[f])
            && (forall f, k :: f in r && k in r[f] && (forall read <- names :: read == [] || Last(read) != f || ReadKey(read) != k) ==>
                  f in b && k in b[f] && r[f][k] == b[f][k])
    decreases |names|
  {
    if names != [] {
      var next := Store(b, names[0], a);
      BucketReadsKeeps(next, names[1..], a);
      assert forall read <- names[1..] :: read in names;
    }
  }

  /** The groups from the current one on, filed on top of `b`. */
  function AssignFrom(taxonomy: Taxonomy, lwrIdx: nat, b: Buckets, groups: seq<Group>, cutoff: real): (r: Result<Buckets, ClassifyError>)
    ensures r.Err? ==> r.error != MissingFields
    decreases |groups|
  {
    if groups == [] then Ok(b)
    else match Consolidate(taxonomy, groups[0].p, cutoff, lwrIdx)
      case Err(e) => Err(e)
      case Ok(a) =>
        match BucketReads(b, groups[0].nm, a)
        case Err(e) => Err(e)
        case Ok(next) => AssignFrom(taxonomy, lwrIdx, next, groups[1..], cutoff)
  }

  /** The whole of `assignPlacement` after loading: the field check, then
      every group consolidated and its names filed, in order. */
  function Assign(taxonomy: Taxonomy, fields: seq<string>, groups: seq<Group>, cutoff: real): (r: Result<Buckets, ClassifyError>)
    ensures r == Err(MissingFields) <==> "like_weight_ratio" !in fields || "classification" !in fields
  {
    match FieldIndices(fields)
    case Err(e) => Err(e)
    case Ok(idx) =>
      AssignFrom(taxonomy, idx.0, map[], groups, cutoff)
  }

  /** Filing one more group after the others is filing the others, then
      that group. */
  lemma {:induction false} AssignAppend(taxonomy: Taxonomy, lwrIdx: nat, b: Buckets, groups: seq<Group>, g: Group, cutoff: real)
    ensures AssignFrom(taxonomy, lwrIdx, b, groups + [g], cutoff) ==
              match AssignFrom(taxonomy, lwrIdx, b, groups, cutoff)
              case Err(e) => Err(e)
              case Ok(mid) =>
                match Consolidate(taxonomy, g.p, cutoff, lwrIdx)
                case Err(e) => Err(e)
                case Ok(a) => BucketReads(mid, g.nm, a)
    decreases |groups|
  {
    if groups == [] {
      assert [g][1..] == [];
    } else {
      assert (groups + [g])[1..] == groups[1..] + [g];
      var c := Consolidate(taxonomy, groups[0].p, cutoff, lwrIdx);
      if c.Ok? && BucketReads(b, groups[0].nm, c.value).Ok? {
        AssignAppend(taxonomy, lwrIdx, BucketReads(b, groups[0].nm, c.value).value, groups[1..], g, cutoff);
      }
    }
  }

  /** A later group overwrites: after filing `groups + [g]`, every read of
      `g` maps to `g`'s assignment, whatever earlier groups filed under the
      same bucket and key. */
  lemma LastGroupWins(taxonomy: Taxonomy, lwrIdx: nat, groups: seq<Group>, g: Group, cutoff: real)
    requires AssignFrom(taxonomy, lwrIdx, map[], groups + [g], cutoff).Ok?
    ensures var r := AssignFrom(taxonomy, lwrIdx, map[], groups + [g], cutoff).value;
            var a := Consolidate(taxonomy, g.p, cutoff, lwrIdx);
            && a.Ok?
            && forall read <- g.nm :: read != [] && Last(read) in r && ReadKey(read) in r[Last(read)]
                                      && r[Last(read)][ReadKey(read)] == a.value
  {
    AssignAppend(taxonomy, lwrIdx, map[], groups, g, cutoff);
    var mid := AssignFrom(taxonomy, lwrIdx, map[], groups, cutoff).value;
    BucketReadsLookup(mid, g.nm, Consolidate(taxonomy, g.p, cutoff, lwrIdx).value);
  }

  /** The bucketing loop as the source writes it, filling the result
      dictionary in place. */
  method AssignPlacement(taxonomy: Taxonomy, fields: seq<string>, groups: seq<Group>, cutoff: real)
    returns (r: Result<Buckets, ClassifyError>)
    ensures r == Assign(taxonomy, fields, groups, cutoff)
  {
    var idx := FieldIndices(fields);
    if idx.Err? {
      return Err(idx.error);
    }
    var lwrIdx := idx.value.0;
    var all: Buckets := map[];
    for g := 0 to |groups|
      invariant AssignFrom(taxonomy, lwrIdx, all, groups[g..], cutoff) == Assign(taxonomy, fields, groups, cutoff)
    {
      assert groups[g..][1..] == groups[g + 1..];
      var best := ConsolidatePlacements(taxonomy, groups[g].p, cutoff, lwrIdx);
      if best.Err? {
        return Err(best.error);
      }
      var filed := FileReads(all, groups[g].nm, best.value);
      if filed.Err? {
        return Err(filed.error);
      }
      all := filed.value;
    }
    assert groups[|groups|..] == [];
    r := Ok(all);
  }

  /** The inner loop over one group's names. */
  method FileReads(b: Buckets, names: seq<string>, a: Assignment) returns (r: Result<Buckets, ClassifyError>)
    ensures r == BucketReads(b, names, a)
  {
    var all := b;
    for k := 0 to |names|
      invariant BucketReads(all, names[k..], a) == BucketReads(b, names, a)
    {
      assert names[k..][1..] == names[k + 1..];
      var read := names[k];
      if read == [] {
        return Err(EmptyReadName);
      }
      var before := all;
      var key := if |read| >= 2 then read[..|read| - 2] else "";
      if read[|read| - 1] in all {
        all := all[read[|read| - 1] := all[read[|read| - 1]][key := a]];
      } else {
        all := all[read[|read| - 1] := map[key := a]];
      }
      assert all == Store(before, read, a);
    }
    assert names[|names|..] == [];
    r := Ok(all);
  }
}
