/**
 * The harvest loop: one iteration per day offset from 99 to 159, each reading
 * the stored table, fetching one results page and writing the table back with
 * that page's rows appended. A block page ends the loop after its row is
 * written; an exception ends the script.
 */
module Harvest {
  import opened Results
  import opened PyStr
  import opened Dropdown
  import opened Page

  /** `range(99, 160)`: the first day offset and the one after the last. */
  const First: int := 99
  const Stop: int := 160

  /** What the outside world supplies to the iteration for one offset: the
      rendered target date, the page fetched for it, the clock reading, and
      whether the table file is held open by another program at write time. */
  datatype Env = Env(date: string, page: Page, now: string, locked: bool)

  /** How the loop ends. */
  datatype End =
    | Completed                             // every offset was processed
    | Blocked(offset: int)                  // a RECAPTCHA page ended the loop
    | Crashed(offset: int, reason: Crash)   // an exception ended the script

  /** The two files the script writes: the table (`db.csv`) and the last page
      that had no dropdowns without being a block page (`no_dropdowns.html`). */
  datatype Files = Files(rows: seq<Row>, diagnostic: Option<string>)

  /** What one iteration amounts to once its page is processed: the rows it
      appends or the exception it raises, the tag of a page without dropdowns,
      the page text, and whether the table file is locked at write time. */
  datatype Outcome = Outcome(appended: Result<seq<Row>, Crash>, tag: Option<Tag>, text: string, locked: bool)
  {
    /** The page ends the loop. */
    predicate Blocks() {
      tag == Some(Recaptcha)
    }

    /** The page raises. */
    predicate Crashes() {
      appended.Err?
    }

    /** The loop goes on to the next offset. */
    predicate Passes() {
      !Blocks() && !Crashes()
    }
  }

  /** The loop body's page handling for one offset: a page without dropdowns yields its tagged
      error row; a page with dropdowns yields its rows or its exception. */
  function PageOutcome(env: Env): Outcome {
    if env.page.dropdowns == [] then
      var tag := Classify(env.page.text);
      Outcome(Ok([ErrorRow(tag, env.now, env.date)]), Some(tag), env.page.text, env.locked)
    else
      Outcome(PageRows(env.page, env.now, env.date), None, env.page.text, env.locked)
  }

  /** A page ends the loop exactly when it has no dropdowns and holds the marker,
      and its one row then carries the RECAPTCHA tag; a page raises exactly when
      it has dropdowns and its rows cannot be built; a page without dropdowns
      never raises; the outcome keeps the page text and the lock state. */
  lemma PageOutcomeSpec(env: Env)
    ensures PageOutcome(env).Blocks() <==>
      env.page.dropdowns == [] && exists i :: OccursAt(env.page.text, Marker, i)
    ensures PageOutcome(env).Blocks() ==>
      PageOutcome(env).appended == Ok([ErrorRow(Recaptcha, env.now, env.date)])
    ensures PageOutcome(env).Crashes() <==>
      env.page.dropdowns != [] && PageRows(env.page, env.now, env.date).Err?
    ensures PageOutcome(env).locked == env.locked && PageOutcome(env).text == env.page.text
  {
    ClassifySpec(env.page.text);
  }

  /** The outcomes of all offsets, in order. */
  function Outcomes(envs: seq<Env>): (outs: seq<Outcome>)
    ensures |outs| == |envs|
  {
    if envs == [] then [] else [PageOutcome(envs[0])] + Outcomes(envs[1..])
  }

  /** Each outcome is the one of the offset's own page. */
  lemma {:induction false} OutcomeAt(envs: seq<Env>, k: int)
    requires 0 <= k < |envs|
    ensures Outcomes(envs)[k] == PageOutcome(envs[k])
  {
    if k > 0 {
      OutcomeAt(envs[1..], k - 1);
    }
  }

  /** `write_csv`: when the file is open elsewhere the exception is swallowed
      and the retry is never taken, so the file keeps its old table. */
  function Written(before: seq<Row>, table: seq<Row>, locked: bool): seq<Row> {
    if locked then before else table
  }

  /** One iteration: the files after it, and the end it causes, if any. The
      diagnostic file is written only for a DROPDOWNS MISSING page. */
  function Step(files: Files, offset: int, out: Outcome): (Files, Option<End>) {
    match out.appended
    case Err(e) => (files, Some(Crashed(offset, e)))
    case Ok(rows) =>
      var diagnostic := if out.tag == Some(DropdownsMissing) then Some(out.text) else files.diagnostic;
      (Files(Written(files.rows, Append(files.rows, rows), out.locked), diagnostic),
       if out.Blocks() then Some(Blocked(offset)) else None)
  }

  /** The loop from `offset` on: the final files and how it ends. */
  function Run(files: Files, outs: seq<Outcome>, offset: int): (Files, End)
    requires |outs| == Stop - First && First <= offset <= Stop
    decreases Stop - offset
  {
    if offset == Stop then (files, Completed)
    else
      var (next, end) := Step(files, offset, outs[offset - First]);
      if end.Some? then (next, end.value) else Run(next, outs, offset + 1)
  }

  /** One turn of the loop: unfolds `Run` at an offset before `Stop`. */
  lemma RunStep(files: Files, outs: seq<Outcome>, offset: int)
    requires |outs| == Stop - First && First <= offset < Stop
    ensures var (next, end) := Step(files, offset, outs[offset - First]);
      Run(files, outs, offset) == if end.Some? then (next, end.value) else Run(next, outs, offset + 1)
  {
  }

  /** The loop never loses a row: the table it starts from stays a prefix of
      the table it leaves. */
  lemma {:induction false} RunKeepsRows(files: Files, outs: seq<Outcome>, offset: int)
    requires |outs| == Stop - First && First <= offset <= Stop
    ensures var rows := Run(files, outs, offset).0.rows;
      |files.rows| <= |rows| && rows[..|files.rows|] == files.rows
    decreases Stop - offset
  {
    if offset < Stop {
      var (next, end) := Step(files, offset, outs[offset - First]);
      assert |files.rows| <= |next.rows| && next.rows[..|files.rows|] == files.rows;
      if end.None? {
        RunKeepsRows(next, outs, offset + 1);
        var rows := Run(files, outs, offset).0.rows;
        assert rows[..|files.rows|] == rows[..|next.rows|][..|files.rows|];
      }
    }
  }

  /** The loop completes exactly when every outcome from `offset` on passes;
      otherwise it stops, as Blocked or as Crashed with the page's exception, at
      the first offset whose outcome does not pass. */
  lemma {:induction false} RunEnd(files: Files, outs: seq<Outcome>, offset: int)
    requires |outs| == Stop - First && First <= offset <= Stop
    ensures var end := Run(files, outs, offset).1;
      (end == Completed <==> forall k :: offset - First <= k < Stop - First ==> outs[k].Passes()) &&
      (end.Blocked? ==>
         offset <= end.offset < Stop && outs[end.offset - First].Blocks() &&
         forall k :: offset - First <= k < end.offset - First ==> outs[k].Passes()) &&
      (end.Crashed? ==>
         offset <= end.offset < Stop && outs[end.offset - First].appended == Err(end.reason) &&
         forall k :: offset - First <= k < end.offset - First ==> outs[k].Passes())
    decreases Stop - offset
  {
    if offset < Stop {
      RunStep(files, outs, offset);
      var st := Step(files, offset, outs[offset - First]);
      if st.1.None? {
        assert outs[offset - First].Passes();
        RunEnd(st.0, outs, offset + 1);
      } else {
        assert !outs[offset - First].Passes();
      }
    }
  }

  /** A RECAPTCHA page stops the loop after its own rows are written: when the
      loop ends Blocked, the blocking outcome carried rows, and if the table
      file was free then, the table ends with those rows. */
  lemma {:induction false} RunLastRows(files: Files, outs: seq<Outcome>, offset: int)
    requires |outs| == Stop - First && First <= offset <= Stop
    ensures var (final, end) := Run(files, outs, offset);
      end.Blocked? ==>
        offset <= end.offset < Stop && outs[end.offset - First].Blocks() &&
        outs[end.offset - First].appended.Ok? &&
        (!outs[end.offset - First].locked ==>
           var rows := outs[end.offset - First].appended.value;
           |rows| <= |final.rows| && final.rows[|final.rows| - |rows|..] == rows)
    decreases Stop - offset
  {
    if offset < Stop {
      RunStep(files, outs, offset);
      var st := Step(files, offset, outs[offset - First]);
      if st.1.None? {
        RunLastRows(st.0, outs, offset + 1);
        assert Run(files, outs, offset) == Run(st.0, outs, offset + 1);
      } else {
        assert Run(files, outs, offset) == (st.0, st.1.value);
      }
    }
  }

  /** The first offset the loop did not pass: the Blocked or Crashed page, or
      `Stop` when every offset passed. */
  function EndOffset(end: End): int {
    if end.Completed? then Stop else end.offset
  }

  /** The offset after the last one whose iteration ran to its table write; a
      Crashed page contributes no rows, so counting it in changes nothing. */
  function Reached(end: End): int {
    if end.Completed? then Stop else end.offset + 1
  }

  /** The rows one iteration adds to the table: its appended rows, unless it
      raised or its write was lost to a locked file. */
  function Added(out: Outcome): seq<Row> {
    if out.appended.Ok? && !out.locked then out.appended.value else []
  }

  /** The rows that the iterations `lo` up to `hi` (exclusive, indices into
      `outs`) add to the table, in offset order. */
  function Kept(outs: seq<Outcome>, lo: int, hi: int): seq<Row>
    requires 0 <= lo <= hi <= |outs|
    decreases hi - lo
  {
    if lo == hi then [] else Added(outs[lo]) + Kept(outs, lo + 1, hi)
  }

  /** One iteration leaves the table followed by the rows it adds. */
  lemma StepRows(files: Files, offset: int, out: Outcome)
    ensures Step(files, offset, out).0.rows == files.rows + Added(out)
  {
    if out.appended.Ok? && !out.locked {
      assert Written(files.rows, Append(files.rows, out.appended.value), out.locked) ==
        files.rows + out.appended.value;
    }
  }

  lemma Regroup(a: seq<Row>, b: seq<Row>, c: seq<Row>)
    ensures (a + b) + c == a + (b + c)
  {
  }

  /** The final table is the starting table followed by the rows of every
      iteration up to and including the one that ended the loop, in offset
      order, less those whose write was lost to a locked file. */
  lemma {:induction false} RunRows(files: Files, outs: seq<Outcome>, offset: int)
    requires |outs| == Stop - First && First <= offset <= Stop
    ensures var r := Run(files, outs, offset);
      offset <= Reached(r.1) <= Stop &&
      r.0.rows == files.rows + Kept(outs, offset - First, Reached(r.1) - First)
    decreases Stop - offset
  {
    if offset < Stop {
      RunStep(files, outs, offset);
      var out := outs[offset - First];
      var st := Step(files, offset, out);
      StepRows(files, offset, out);
      if st.1.None? {
        RunRows(st.0, outs, offset + 1);
        var r := Run(st.0, outs, offset + 1);
        var rest := Kept(outs, offset + 1 - First, Reached(r.1) - First);
        assert Kept(outs, offset - First, Reached(r.1) - First) == Added(out) + rest;
        Regroup(files.rows, Added(out), rest);
        assert Run(files, outs, offset) == r;
      } else {
        assert Run(files, outs, offset) == (st.0, st.1.value);
        assert Reached(st.1.value) == offset + 1;
        assert Kept(outs, offset - First, offset + 1 - First) == Added(out) + [];
        assert Added(out) + [] == Added(out);
      }
    } else {
      assert files.rows + [] == files.rows;
    }
  }

  /** `no_dropdowns.html` holds the last page tagged DROPDOWNS MISSING among
      those the loop passed; when there was none it is left as it was. */
  lemma {:induction false} RunDiagnostic(files: Files, outs: seq<Outcome>, offset: int)
    requires |outs| == Stop - First && First <= offset <= Stop
    ensures var (final, end) := Run(files, outs, offset);
      var s := EndOffset(end) - First;
      offset - First <= s <= |outs| &&
      ((final.diagnostic == files.diagnostic &&
        forall k :: offset - First <= k < s ==> outs[k].tag != Some(DropdownsMissing)) ||
       exists k :: offset - First <= k < s &&
         outs[k].tag == Some(DropdownsMissing) && final.diagnostic == Some(outs[k].text) &&
         forall j :: k < j < s ==> outs[j].tag != Some(DropdownsMissing))
    decreases Stop - offset
  {
    if offset < Stop {
      RunStep(files, outs, offset);
      var st := Step(files, offset, outs[offset - First]);
      if st.1.None? {
        RunDiagnostic(st.0, outs, offset + 1);
        assert Run(files, outs, offset) == Run(st.0, outs, offset + 1);
      } else {
        assert Run(files, outs, offset) == (st.0, st.1.value);
      }
    }
  }

  /** The page behind a Blocked end (`RunLastRows` gives the premises for
      `Outcomes(envs)[end.offset - First]`, which `OutcomeAt` ties to its page):
      it had no dropdowns and held the marker, and when its table write went
      through, the table ends with the page's RECAPTCHA row. */
  lemma BlockedPageRow(env: Env, out: Outcome, table: seq<Row>)
    requires out == PageOutcome(env) && out.Blocks()
    requires !out.locked && out.appended.Ok? ==>
      var rows := out.appended.value;
      |rows| <= |table| && table[|table| - |rows|..] == rows
    ensures env.page.dropdowns == [] && exists i :: OccursAt(env.page.text, Marker, i)
    ensures !env.locked ==>
      |table| > 0 && table[|table| - 1] == ErrorRow(Recaptcha, env.now, env.date)
  {
    PageOutcomeSpec(env);
    if !env.locked {
      var rows := [ErrorRow(Recaptcha, env.now, env.date)];
      assert table[|table| - 1] == table[|table| - |rows|..][0];
    }
  }

  /** The table file: `pd.read_csv` and `write_csv` on `db.csv`, and the
      `no_dropdowns.html` file beside it. */
  class Store {
    var rows: seq<Row>
    var diagnostic: Option<string>

    constructor (rows: seq<Row>)
      ensures this.rows == rows && diagnostic == None
    {
      this.rows := rows;
      diagnostic := None;
    }

    /** `pd.read_csv("db.csv")` */
    method Read() returns (table: seq<Row>)
      ensures table == rows
    {
      table := rows;
    }

    /** `write_csv(df, "db.csv")`: the write is lost while the file is locked. */
    method Write(table: seq<Row>, locked: bool)
      modifies this
      ensures rows == Written(old(rows), table, locked)
      ensures diagnostic == old(diagnostic)
    {
      if !locked {
        rows := table;
      }
    }

    /** Writing `no_dropdowns.html`. */
    method WriteDiagnostic(text: string)
      modifies this
      ensures diagnostic == Some(text) && rows == old(rows)
    {
      diagnostic := Some(text);
    }
  }

  /** One pass of the loop body for offset `num`: read the table, process the
      page, write the files back. */
  method Iterate(store: Store, num: int, env: Env, ghost out: Outcome) returns (end: Option<End>)
    requires out == PageOutcome(env)
    modifies store
    ensures (Files(store.rows, store.diagnostic), end) ==
      Step(Files(old(store.rows), old(store.diagnostic)), num, out)
  {
    var existing := store.Read();
    if env.page.dropdowns == [] {
      var tag := Classify(env.page.text);
      if tag == DropdownsMissing {
        store.WriteDiagnostic(env.page.text);
      }
      store.Write(Append(existing, [ErrorRow(tag, env.now, env.date)]), env.locked);
      if tag == Recaptcha {
        return Some(Blocked(num));
      }
    } else {
      var scraped := ScrapePage(env.page, env.now, env.date);
      if scraped.Err? {
        return Some(Crashed(num, scraped.error));
      }
      store.Write(Append(existing, scraped.value), env.locked);
    }
    return None;
  }

  /** `for num in range(99, 160)`: the loop over the day offsets, from one
      `Env` per offset. */
  method Harvest(store: Store, envs: seq<Env>) returns (end: End)
    requires |envs| == Stop - First
    modifies store
    ensures (Files(store.rows, store.diagnostic), end) ==
      Run(Files(old(store.rows), old(store.diagnostic)), Outcomes(envs), First)
  {
    ghost var start := Files(store.rows, store.diagnostic);
    ghost var outs := Outcomes(envs);
    for num := First to Stop
      invariant Run(Files(store.rows, store.diagnostic), outs, num) == Run(start, outs, First)
    {
      ghost var before := Files(store.rows, store.diagnostic);
      OutcomeAt(envs, num - First);
      var stop := Iterate(store, num, envs[num - First], outs[num - First]);
      RunStep(before, outs, num);
      if stop.Some? {
        return stop.value;
      }
    }
    return Completed;
  }
}
