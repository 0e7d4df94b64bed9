/** app/actions/contact.ts: the contact form's server action. It checks the three fields, checks
    the address against `/^[^\s@]+@[^\s@]+\.[^\s@]+$/`, and stores the message unread. The
    database insert is a parameter: it stores the row, reports an error, or throws. */
module Contact {
  import opened Wrappers
  import opened Text
  import opened Records

  datatype ContactForm = ContactForm(name: String, email: String, message: String)

  datatype Response = Response(success: bool, message: String)

  /** What the `messages` insert does with a row. */
  datatype InsertOutcome = Stored | ReportedError | Threw

  const AllFieldsRequired: String := "All fields are required"
  const InvalidEmail: String := "Please enter a valid email address"
  const SendFailed: String := "Failed to send message. Please try again later."
  const Sent: String := "Your message has been sent successfully!"
  const Unexpected: String := "An unexpected error occurred. Please try again later."

  /** `[^\s@]` */
  predicate IsAddressChar(c: char) { !IsSpace(c) && c != '@' }

  /** `e[i..j]` is a non-empty run of `[^\s@]`. */
  predicate AddressRun(e: String, i: nat, j: nat) {
    i < j <= |e| && forall k :: i <= k < j ==> IsAddressChar(e[k])
  }

  /** The regex matches `e` with its `@` at `at` and its escaped `.` at `dot`. */
  predicate EmailSplit(e: String, at: nat, dot: nat) {
    && at < dot < |e| && e[at] == '@' && e[dot] == '.'
    && AddressRun(e, 0, at) && AddressRun(e, at + 1, dot) && AddressRun(e, dot + 1, |e|)
  }

  /** `/^[^\s@]+@[^\s@]+\.[^\s@]+$/.test(e)`, read as the regex's own decomposition. */
  ghost predicate EmailPattern(e: String) {
    exists at: nat, dot: nat :: EmailSplit(e, at, dot)
  }

  /** The same language described by counting: no whitespace, exactly one `@`, not first, and
      a `.` after it with at least one character on each side. */
  ghost predicate EmailShape(e: String, at: nat) {
    && at < |e| && e[at] == '@' && 0 < at
    && (forall k :: 0 <= k < |e| ==> !IsSpace(e[k]))
    && (forall k :: 0 <= k < |e| && k != at ==> e[k] != '@')
    && DotAfter(e, at)
  }

  ghost predicate DotAfter(e: String, at: nat) {
    exists dot: nat :: at + 1 < dot < |e| - 1 && e[dot] == '.'
  }

  lemma EmailPatternIsShape(e: String, at: nat)
    requires at < |e| && e[at] == '@'
    ensures EmailPattern(e) <==> EmailShape(e, at)
  {
    if EmailPattern(e) {
      var a: nat, d: nat :| EmailSplit(e, a, d);
      assert a == at by {
        assert forall k :: 0 <= k < |e| && k != a ==> e[k] != '@';
      }
      assert at + 1 < d < |e| - 1 && e[d] == '.';
    }
    if EmailShape(e, at) {
      var d: nat :| at + 1 < d < |e| - 1 && e[d] == '.';
      assert EmailSplit(e, at, d);
    }
  }

  /** An address without `@` never matches. */
  lemma NoAtNoMatch(e: String)
    requires '@' !in e
    ensures !EmailPattern(e)
  {
  }

  /** One left-to-right pass deciding the email regex. */
  method CheckEmail(e: String) returns (ok: bool)
    ensures ok <==> EmailPattern(e)
  {
    var firstAt: Option<nat> := None;
    var twoAts, space, dotOk := false, false, false;
    var i := 0;
    while i < |e|
      invariant 0 <= i <= |e|
      invariant firstAt.None? <==> '@' !in e[..i]
      invariant firstAt.Some? ==> firstAt.value < i && e[firstAt.value] == '@'
                                  && forall k :: 0 <= k < firstAt.value ==> e[k] != '@'
      invariant twoAts <==> firstAt.Some? && exists k :: firstAt.value < k < i && e[k] == '@'
      invariant space <==> exists k :: 0 <= k < i && IsSpace(e[k])
      invariant dotOk <==> firstAt.Some? && exists k :: firstAt.value + 1 < k < i && k < |e| - 1 && e[k] == '.'
    {
      var c := e[i];
      if IsSpace(c) {
        space := true;
      }
      if c == '@' {
        if firstAt.None? {
          firstAt := Some(i);
        } else {
          twoAts := true;
        }
      }
      if c == '.' && firstAt.Some? && firstAt.value + 1 < i < |e| - 1 {
        dotOk := true;
      }
      assert e[..i + 1] == e[..i] + [c];
      i := i + 1;
    }
    assert e[..i] == e;
    if firstAt.None? {
      NoAtNoMatch(e);
      ok := false;
    } else {
      var at := firstAt.value;
      EmailPatternIsShape(e, at);
      ok := !space && !twoAts && at > 0 && dotOk;
      assert dotOk <==> DotAfter(e, at);
    }
  }

  /** `submitContactForm`: required fields, then the address, then the insert. Returns the
      response and the row handed to the insert, if any. */
  method SubmitContactForm(form: ContactForm, insert: MessageRow -> InsertOutcome)
    returns (response: Response, attempted: Option<MessageRow>)
    ensures form.name == [] || form.email == [] || form.message == []
            ==> response == Response(false, AllFieldsRequired) && attempted.None?
    ensures form.name != [] && form.email != [] && form.message != [] && !EmailPattern(form.email)
            ==> response == Response(false, InvalidEmail) && attempted.None?
    ensures attempted.Some? <==> form.name != [] && form.email != [] && form.message != [] && EmailPattern(form.email)
    ensures attempted.Some? ==> attempted.value == MessageRow(form.name, form.email, form.message, false)
    ensures response.success <==> attempted.Some? && insert(attempted.value) == Stored
    ensures attempted.Some? && insert(attempted.value) == ReportedError ==> response.message == SendFailed
    ensures attempted.Some? && insert(attempted.value) == Threw ==> response.message == Unexpected
    ensures response.success ==> response.message == Sent
  {
    if form.name == [] || form.email == [] || form.message == [] {
      return Response(false, AllFieldsRequired), None;
    }
    var valid := CheckEmail(form.email);
    if !valid {
      return Response(false, InvalidEmail), None;
    }
    var row := MessageRow(form.name, form.email, form.message, false);
    attempted := Some(row);
    match insert(row)
    case Stored => response := Response(true, Sent);
    case ReportedError => response := Response(false, SendFailed);
    case Threw => response := Response(false, Unexpected);
  }
}
