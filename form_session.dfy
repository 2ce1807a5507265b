/**
 * One browser session of the registration page: the two session-state
 * entries the page keeps (whether the form was submitted, and the CNIC as
 * last formatted) and the `registrations` table rows are appended to. Each
 * call of `Run` is one run of the page script with the values the widgets
 * hold.
 */
module FormSession {
  import opened CnicFormat
  import opened Submission

  /** What one run of the script did. */
  datatype RunOutcome =
    | Reformatted          // the CNIC field changed: store it formatted and re-run
    | Idle                 // nothing changed and Submit was not pressed
    | Decided(decision: Decision)  // Submit was pressed on an unchanged CNIC

  class RegistrationPage {
    /** Whether the success view replaces the form. */
    var submitted: bool
    /** The CNIC the form shows, always in formatted form. */
    var cnic: string
    /** The rows of the `registrations` table, oldest first. */
    var rows: seq<Registration>

    ghost predicate Valid()
      reads this
    {
      FormatCnic(cnic) == cnic
    }

    /** The first run of a session: form shown, CNIC empty, the table as it
        already was. */
    constructor (existing: seq<Registration>)
      ensures Valid()
      ensures !submitted && cnic == [] && rows == existing
    {
      submitted := false;
      cnic := [];
      rows := existing;
    }

    /** `save_to_db`: append one row. */
    method Save(r: Registration)
      modifies this`rows
      ensures rows == old(rows) + [r]
    {
      rows := rows + [r];
    }

    /** The CNIC widget changed: store its value formatted. The stored
        value stays a fixed point of the formatter, so the re-run that
        follows sees no change. */
    method Reformat(typed: string)
      modifies this`cnic
      ensures cnic == FormatCnic(typed) && Valid()
    {
      FormatCnicIdempotent(typed);
      cnic := FormatCnic(typed);
    }

    /** Submit pressed on an unchanged CNIC: apply the submit decision; on
        acceptance save exactly one row and switch to the success view. The
        gender is one of the select box's options, the only values that
        widget yields. */
    method Submit(f: Form) returns (d: Decision)
      requires f.gender in GenderOptions
      modifies this`rows, this`submitted
      ensures d == Decide(f)
      ensures d.Accepted? ==> rows == old(rows) + [d.record] && submitted
      ensures d.Rejected? ==> rows == old(rows) && submitted == old(submitted)
      ensures d.Accepted? ==> WellFormed(d.record)
    {
      d := Decide(f);
      if d.Accepted? {
        AcceptedIsWellFormed(f);
        Save(d.record);
        submitted := true;
      }
    }

    /** One run of the form view. A CNIC that differs from the stored one is
        formatted and stored and the script re-runs before anything else is
        looked at, so that click is not a submission. Otherwise a click runs
        the submit decision. */
    method Run(f: Form, clicked: bool) returns (outcome: RunOutcome)
      requires Valid() && !submitted
      requires f.gender in GenderOptions
      modifies this
      ensures Valid()
      ensures f.cnic != old(cnic) ==>
        && outcome == Reformatted
        && cnic == FormatCnic(f.cnic) && rows == old(rows) && !submitted
      ensures f.cnic == old(cnic) && !clicked ==>
        outcome == Idle && cnic == old(cnic) && rows == old(rows) && !submitted
      ensures f.cnic == old(cnic) && clicked ==>
        && outcome.Decided? && outcome.decision == Decide(f) && cnic == old(cnic)
        && (outcome.decision.Accepted? ==>
              rows == old(rows) + [outcome.decision.record] && submitted
              && WellFormed(outcome.decision.record))
        && (outcome.decision.Rejected? ==> rows == old(rows) && !submitted)
    {
      if f.cnic != cnic {
        Reformat(f.cnic);
        outcome := Reformatted;
      } else if !clicked {
        outcome := Idle;
      } else {
        var d := Submit(f);
        outcome := Decided(d);
      }
    }

    /** "Submit Another Form": back to an empty form; the table keeps its
        rows. */
    method SubmitAnother()
      requires submitted
      modifies this
      ensures Valid()
      ensures !submitted && cnic == [] && rows == old(rows)
    {
      submitted := false;
      cnic := [];
    }
  }
}
