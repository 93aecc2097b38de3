/** The contact form controller: `validateForm`, and the submit handler's
    effect on the submit button, the form fields and the message region.
    The send itself is an outcome supplied by the caller. */
module ContactForm {
  import opened Options
  import opened Strings

  /** The four field values read on submit. */
  datatype FormData = FormData(name: string, email: string, subject: string, message: string)

  /** The submit button: its `innerHTML` and `disabled` property. */
  datatype Button = Button(caption: string, disabled: bool)

  datatype NoticeKind = SuccessNotice | ErrorNotice

  /** The `formMessage` region: its text and its `success`/`error` style. */
  datatype Notice = NoNotice | Shown(text: string, kind: NoticeKind)

  /** What the form shows: the fields, the values `form.reset()` restores,
      the submit button and the message region. */
  datatype FormView = FormView(fields: FormData, defaults: FormData, button: Button, notice: Notice)

  /** What a send attempt does: completes, or throws into the `catch`. */
  datatype SendOutcome = Delivered | Threw

  /** A submission that passed validation and is awaiting its send: the
      handler's saved `originalText`. */
  datatype InFlight = InFlight(originalCaption: string)

  const BusyLabel: string := "<i class=\"fas fa-spinner fa-spin\"></i> Sending..."
  const InvalidText: string := "Please fill in all fields correctly."
  const SuccessText: string := "Thank you! Your message has been sent successfully. I'll get back to you soon!"
  const FailureText: string := "Oops! Something went wrong. Please try again or email me directly."

  const MinName: nat := 2
  const MinSubject: nat := 3
  const MinMessage: nat := 10

  // ---------------------------------------------------------------------
  // The email pattern ^[^\s@]+@[^\s@]+\.[^\s@]+$
  // ---------------------------------------------------------------------

  /** A member of the character class `[^\s@]`. */
  predicate Plain(c: char) {
    !IsWhitespace(c) && c != '@'
  }

  /** A non-empty run of `[^\s@]`, as `[^\s@]+` matches. */
  predicate PlainRun(s: string) {
    |s| > 0 && forall i :: 0 <= i < |s| ==> Plain(s[i])
  }

  /** The regular expression, read literally: `s` splits into
      run `@` run `.` run, for some position of the `@` and of the `.`. */
  ghost predicate MatchesEmailPattern(s: string) {
    exists at, dot {:trigger s[at], s[dot]} ::
      && 0 <= at < dot < |s|
      && s[at] == '@' && s[dot] == '.'
      && PlainRun(s[..at]) && PlainRun(s[at + 1..dot]) && PlainRun(s[dot + 1..])
  }

  /** Index of the first `c` in `s`. */
  function IndexOf(s: string, c: char): (r: Option<nat>)
    ensures r.None? <==> c !in s
    ensures r.Some? ==> r.value < |s| && s[r.value] == c && c !in s[..r.value]
    decreases |s|
  {
    if |s| == 0 then None
    else if s[0] == c then Some(0)
    else
      match IndexOf(s[1..], c)
      case None => None
      case Some(k) =>
        assert s[..k + 1] == [s[0]] + s[1..][..k];
        Some(k + 1)
  }

  /** The pattern as a direct test: no whitespace anywhere, exactly one
      `@` with something before it, and after it a domain holding a `.`
      that is neither its first nor its last character. */
  predicate IsEmail(s: string)
    ensures IsEmail(s) ==> |s| >= 5 && '@' in s && '.' in s
  {
    && (forall i :: 0 <= i < |s| ==> !IsWhitespace(s[i]))
    && match IndexOf(s, '@')
       case None => false
       case Some(at) =>
         var domain := s[at + 1..];
         && at > 0
         && '@' !in domain
         && |domain| >= 3
         && '.' in domain[1..|domain| - 1]
  }

  /** The direct test and the regular expression accept the same strings. */
  lemma EmailTestMatchesPattern(s: string)
    ensures IsEmail(s) <==> MatchesEmailPattern(s)
  {
    if IsEmail(s) { EmailTestSound(s); }
    if MatchesEmailPattern(s) { EmailTestComplete(s); }
  }

  lemma EmailTestSound(s: string)
    requires IsEmail(s)
    ensures MatchesEmailPattern(s)
  {
    var at := IndexOf(s, '@').value;
    var domain := s[at + 1..];
    var mid := domain[1..|domain| - 1];
    var k :| 0 <= k < |mid| && mid[k] == '.';
    var dot := at + 2 + k;
    assert s[dot] == '.';
    PlainSlice(s, 0, at);
    PlainSlice(s, at + 1, dot);
    PlainSlice(s, dot + 1, |s|);
    assert s[..at] == s[0..at];
    assert s[dot + 1..] == s[dot + 1..|s|];
  }

  /** Inside a whitespace-free string with at most one `@`, at position
      `at`, any slice that avoids `at` is plain. */
  lemma PlainSlice(s: string, lo: nat, hi: nat)
    requires IsEmail(s)
    requires lo < hi <= |s|
    requires var at := IndexOf(s, '@').value; hi <= at || at < lo
    ensures PlainRun(s[lo..hi])
  {
    var at := IndexOf(s, '@').value;
    forall i | 0 <= i < hi - lo
      ensures Plain(s[lo..hi][i])
    {
      var j := lo + i;
      assert s[lo..hi][i] == s[j];
      if j < at {
        assert s[..at][j] == s[j];
      } else {
        assert s[at + 1..][j - at - 1] == s[j];
      }
    }
  }

  lemma EmailTestComplete(s: string)
    requires MatchesEmailPattern(s)
    ensures IsEmail(s)
  {
    var at, dot :| && 0 <= at < dot < |s|
      && s[at] == '@' && s[dot] == '.'
      && PlainRun(s[..at]) && PlainRun(s[at + 1..dot]) && PlainRun(s[dot + 1..]);
    EmailFromPieces(s, at, dot);
  }

  /** A string split as the pattern demands passes the direct test. */
  lemma EmailFromPieces(s: string, at: nat, dot: nat)
    requires at < dot < |s| && s[at] == '@' && s[dot] == '.'
    requires PlainRun(s[..at]) && PlainRun(s[at + 1..dot]) && PlainRun(s[dot + 1..])
    ensures IsEmail(s)
  {
    PatternPiecesPlain(s, at, dot);
    assert at > 0 && dot > at + 1 && |s| > dot + 1 by {
      assert |s[..at]| == at && |s[at + 1..dot]| == dot - at - 1 && |s[dot + 1..]| == |s| - dot - 1;
    }
    IndexOfFirst(s, '@', at);
    var domain := s[at + 1..];
    assert '@' !in domain by {
      forall j | 0 <= j < |domain| ensures domain[j] != '@' { assert domain[j] == s[at + 1 + j]; }
    }
    assert |domain| >= 3;
    assert domain[1..|domain| - 1][dot - at - 2] == '.';
    EmailFromParts(s, at);
  }

  /** The conjuncts of `IsEmail`, once the first `@` is known. */
  lemma EmailFromParts(s: string, at: nat)
    requires forall i :: 0 <= i < |s| ==> !IsWhitespace(s[i])
    requires IndexOf(s, '@') == Some(at) && at > 0
    requires '@' !in s[at + 1..] && |s[at + 1..]| >= 3
    requires '.' in s[at + 1..][1..|s[at + 1..]| - 1]
    ensures IsEmail(s)
  {
  }

  /** Outside the `@` itself, a string split as the pattern demands has no
      whitespace and no `@`. */
  lemma PatternPiecesPlain(s: string, at: nat, dot: nat)
    requires at < dot < |s| && s[at] == '@' && s[dot] == '.'
    requires PlainRun(s[..at]) && PlainRun(s[at + 1..dot]) && PlainRun(s[dot + 1..])
    ensures forall i :: 0 <= i < |s| ==> !IsWhitespace(s[i]) && (i != at ==> s[i] != '@')
  {
    forall i | 0 <= i < |s|
      ensures !IsWhitespace(s[i]) && (i != at ==> s[i] != '@')
    {
      if i < at { assert s[..at][i] == s[i]; }
      else if at < i < dot { assert s[at + 1..dot][i - at - 1] == s[i]; }
      else if dot < i { assert s[dot + 1..][i - dot - 1] == s[i]; }
    }
  }

  lemma IndexOfFirst(s: string, c: char, k: nat)
    requires k < |s| && s[k] == c
    requires forall i :: 0 <= i < k ==> s[i] != c
    ensures IndexOf(s, c) == Some(k)
  {
  }

  // ---------------------------------------------------------------------
  // validateForm
  // ---------------------------------------------------------------------

  /** `validateForm`: trimmed name of at least 2, an email matching the
      pattern (untrimmed), trimmed subject of at least 3 and trimmed message
      of at least 10 characters. */
  predicate ValidateForm(d: FormData)
    ensures ValidateForm(d) ==>
      && |d.name| >= MinName && |d.subject| >= MinSubject && |d.message| >= MinMessage
      && '@' in d.email
  {
    && |Trim(d.name)| >= MinName
    && IsEmail(d.email)
    && |Trim(d.subject)| >= MinSubject
    && |Trim(d.message)| >= MinMessage
  }

  /** `validateForm` accepts exactly the data whose trimmed name, subject
      and message meet their minimum lengths and whose untrimmed email
      matches the regular expression. */
  lemma ValidateFormMeaning(d: FormData)
    ensures ValidateForm(d) <==>
      && |Trim(d.name)| >= 2
      && MatchesEmailPattern(d.email)
      && |Trim(d.subject)| >= 3
      && |Trim(d.message)| >= 10
  {
    EmailTestMatchesPattern(d.email);
  }

  /** Whitespace around the name, subject or message never changes the
      verdict; whitespace around the email always fails it. */
  lemma PaddingIrrelevantExceptEmail(d: FormData, pad: string)
    requires Blank(pad) && pad != []
    ensures ValidateForm(d.(name := pad + d.name + pad, subject := pad + d.subject + pad,
                            message := pad + d.message + pad)) == ValidateForm(d)
    ensures !ValidateForm(d.(email := pad + d.email))
    ensures !ValidateForm(d.(email := d.email + pad))
  {
    TrimIgnoresPadding(pad, d.name, pad);
    TrimIgnoresPadding(pad, d.subject, pad);
    TrimIgnoresPadding(pad, d.message, pad);
    var e := pad + d.email;
    assert IsWhitespace(e[0]);
    assert !IsEmail(e);
    var e' := d.email + pad;
    assert IsWhitespace(e'[|e'| - 1]);
    assert !IsEmail(e');
  }

  /** The worked example of a minimal valid submission. */
  lemma ValidExample()
    ensures ValidateForm(FormData("Al", "a@b.co", "Hi!", "1234567890"))
  {
    ExampleFieldsTrimmed();
    ExampleEmail();
  }

  lemma ExampleFieldsTrimmed()
    ensures Trim("Al") == "Al" && Trim("Hi!") == "Hi!" && Trim("1234567890") == "1234567890"
  {
    TrimOfTrimmed("Al");
    TrimOfTrimmed("Hi!");
    TrimOfTrimmed("1234567890");
  }

  lemma ExampleEmail()
    ensures IsEmail("a@b.co")
  {
    var e := "a@b.co";
    assert e[0] == 'a' && e[1] == '@' && e[2] == 'b' && e[3] == '.' && e[4] == 'c' && e[5] == 'o';
    assert forall i :: 0 <= i < |e| ==> !IsWhitespace(e[i]);
    IndexOfFirst(e, '@', 1);
    var domain := e[2..];
    assert domain == "b.co";
    assert '@' !in domain;
    assert domain[1..3][0] == '.';
    assert IsEmail(e);
  }

  /** A one-letter name fails. */
  lemma ShortNameExample()
    ensures !ValidateForm(FormData("A", "a@b.co", "Hi!", "1234567890"))
  {
    TrimOfTrimmed("A");
  }

  /** An email without `@` fails. */
  lemma NoAtExample()
    ensures !ValidateForm(FormData("Al", "bad", "Hi!", "1234567890"))
  {
    assert IndexOf("bad", '@') == None by {
      assert "bad"[0] == 'b' && "bad"[1] == 'a' && "bad"[2] == 'd';
    }
  }

  // ---------------------------------------------------------------------
  // The submit handler
  // ---------------------------------------------------------------------

  /** The synchronous part of the submit handler, up to the `await`: an
      invalid form shows the error notice and stops; a valid one saves the
      button's label, disables it and shows the busy label. */
  function BeginSubmit(v: FormView): (r: (FormView, Option<InFlight>))
    ensures !ValidateForm(v.fields) ==>
      && r.1.None?
      && r.0 == v.(notice := Shown(InvalidText, ErrorNotice))
    ensures ValidateForm(v.fields) ==>
      && r.1 == Some(InFlight(v.button.caption))
      && r.0 == v.(button := Button(BusyLabel, true))
  {
    if !ValidateForm(v.fields) then
      (v.(notice := Shown(InvalidText, ErrorNotice)), None)
    else
      (v.(button := Button(BusyLabel, true)), Some(InFlight(v.button.caption)))
  }

  /** The part after the `await`: the notice of the outcome, `form.reset()`
      on success only, and in `finally` the saved label and an enabled
      button on both outcomes. */
  function FinishSubmit(v: FormView, f: InFlight, outcome: SendOutcome): (r: FormView)
    ensures r.button == Button(f.originalCaption, false)
    ensures r.defaults == v.defaults
    ensures outcome == Delivered ==> r.fields == v.defaults && r.notice == Shown(SuccessText, SuccessNotice)
    ensures outcome == Threw ==> r.fields == v.fields && r.notice == Shown(FailureText, ErrorNotice)
  {
    var shown := match outcome
      case Delivered => v.(notice := Shown(SuccessText, SuccessNotice), fields := v.defaults)
      case Threw => v.(notice := Shown(FailureText, ErrorNotice));
    shown.(button := Button(f.originalCaption, false))
  }

  /** One whole submission, with no other submission overlapping it. */
  function Submit(v: FormView, outcome: SendOutcome): (r: FormView)
    ensures !ValidateForm(v.fields) ==>
      r.button == v.button && r.fields == v.fields && r.notice == Shown(InvalidText, ErrorNotice)
    ensures ValidateForm(v.fields) ==>
      && r.button == Button(v.button.caption, false)
      && (r.fields == v.defaults <==> outcome == Delivered || v.fields == v.defaults)
  {
    match BeginSubmit(v)
    case (v', None) => v'
    case (v', Some(f)) => FinishSubmit(v', f, outcome)
  }

  /** A completed submission of an enabled button leaves the button exactly
      as it was, whichever way the send went; an invalid one never touches
      it, even when it was disabled. */
  lemma ButtonRestored(v: FormView, outcome: SendOutcome)
    requires !v.button.disabled || !ValidateForm(v.fields)
    ensures Submit(v, outcome).button == v.button
  {
  }

  /** A second submission that starts while the first is still sending
      saves the busy label as its "original"; once both finish, the button
      is enabled but keeps the busy label. */
  lemma OverlappingSubmissionsKeepBusyLabel(v: FormView, first: SendOutcome, second: SendOutcome)
    requires ValidateForm(v.fields)
    ensures var (v1, f1) := BeginSubmit(v);
      var (v2, f2) := BeginSubmit(v1);
      f1.Some? && f2.Some? &&
      FinishSubmit(FinishSubmit(v2, f1.value, first), f2.value, second).button == Button(BusyLabel, false)
  {
  }
}
