/** The form state machine of the contact dialog. The `setTimeout` callback
    that resets the form is an explicit event: `pendingResets` counts the
    callbacks scheduled and not yet run, and `openChanges` records, in order,
    every value the dialog passes to its `onOpenChange` callback. */
module Contact {

  /** What the dialog body shows. */
  datatype View = Form | ThankYou

  class ContactDialog {
    var email: string
    var submitted: bool
    var pendingResets: nat
    var openChanges: seq<bool>
    /** The `open` flag owned by the parent; the dialog only reads it. */
    var open: bool

    /** While the form is shown no reset is pending; while the thank-you view is
        shown exactly one is. */
    ghost predicate Valid()
      reads this
    {
      pendingResets == if submitted then 1 else 0
    }

    /** A fresh dialog: empty field, form shown, nothing scheduled or emitted. */
    constructor (open0: bool)
      ensures Valid()
      ensures email == "" && !submitted && pendingResets == 0 && openChanges == [] && open == open0
    {
      email := "";
      submitted := false;
      pendingResets := 0;
      openChanges := [];
      open := open0;
    }

    /** The form is rendered exactly while nothing has been submitted; the
        thank-you message exactly while something has. */
    function CurrentView(): (v: View)
      reads this
      ensures v == Form <==> !submitted
      ensures v == ThankYou <==> submitted
    {
      if !submitted then Form else ThankYou
    }

    /** The email input's change event. */
    method ChangeEmail(value: string)
      modifies this`email
      ensures email == value
    {
      email := value;
    }

    /** The form's submit event, which exists only while the form is shown. An
        empty field does nothing; otherwise the thank-you view appears and one
        reset is scheduled, and the dialog stays open for now. */
    method Submit()
      requires Valid() && CurrentView() == Form
      modifies this`submitted, this`pendingResets
      ensures Valid()
      ensures email == old(email) && openChanges == old(openChanges)
      ensures old(email) == "" ==> !submitted && pendingResets == old(pendingResets)
      ensures old(email) != "" ==> submitted && pendingResets == old(pendingResets) + 1
    {
      if email != "" {
        submitted := true;
        pendingResets := pendingResets + 1;
      }
    }

    /** The Cancel button of the form: asks the parent to close, nothing else. */
    method Cancel()
      requires CurrentView() == Form
      modifies this`openChanges
      ensures openChanges == old(openChanges) + [false]
    {
      openChanges := openChanges + [false];
    }

    /** The dialog primitive's own dismissals (escape, outside click, the close
        glyph): they too only ask the parent to close. */
    method Dismiss()
      modifies this`openChanges
      ensures openChanges == old(openChanges) + [false]
    {
      openChanges := openChanges + [false];
    }

    /** The parent changes the `open` flag. The form state is kept and no
        pending reset is cancelled. */
    method SetOpen(open0: bool)
      modifies this`open
      ensures open == open0
    {
      open := open0;
    }

    /** A scheduled reset runs: the form comes back empty and the parent is
        asked, once, to close the dialog, whatever `open` is by then. */
    method ResetFires()
      requires Valid() && pendingResets > 0
      modifies this`email, this`submitted, this`pendingResets, this`openChanges
      ensures Valid()
      ensures email == "" && !submitted && pendingResets == old(pendingResets) - 1
      ensures openChanges == old(openChanges) + [false]
    {
      submitted := false;
      email := "";
      pendingResets := pendingResets - 1;
      openChanges := openChanges + [false];
    }
  }

  /** Typing an address, submitting and letting the delay run out: the thank-you
      view is shown in between, the dialog ends up empty and in the form view,
      and the parent is asked to close exactly once. */
  method SubmitThenReset(address: string) returns (viewAfterSubmit: View, finalEmail: string,
                                                   finalView: View, closes: seq<bool>)
    requires address != ""
    ensures viewAfterSubmit == ThankYou
    ensures finalEmail == "" && finalView == Form && closes == [false]
  {
    var d := new ContactDialog(true);
    d.ChangeEmail(address);
    d.Submit();
    viewAfterSubmit := d.CurrentView();
    d.ResetFires();
    finalEmail := d.email;
    finalView := d.CurrentView();
    closes := d.openChanges;
  }

  /** Submitting with an empty field changes nothing and schedules nothing, so
      no close request can ever follow from it. */
  method SubmitEmpty() returns (view: View, pending: nat, closes: seq<bool>)
    ensures view == Form && pending == 0 && closes == []
  {
    var d := new ContactDialog(true);
    d.Submit();
    view := d.CurrentView();
    pending := d.pendingResets;
    closes := d.openChanges;
  }

  /** No stale-timer protection: submit, close the dialog with its close glyph,
      and reopen it before the delay is over; the reset still runs and asks the
      reopened dialog to close. */
  method StaleResetClosesReopenedDialog(address: string) returns (openWhenFired: bool, closes: seq<bool>)
    requires address != ""
    ensures openWhenFired && closes == [false, false]
  {
    var d := new ContactDialog(true);
    d.ChangeEmail(address);
    d.Submit();
    d.Dismiss();
    d.SetOpen(false);
    d.SetOpen(true);
    openWhenFired := d.open;
    d.ResetFires();
    closes := d.openChanges;
  }
}
