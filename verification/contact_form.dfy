/** The contact form: four controlled fields and a submit handler that opens
    the visitor's mail client through a `mailto:` link carrying the subject
    and a body built from the other fields, both percent-encoded, then shows a
    thank-you note for five seconds. */
module ContactForm {
  import opened Wrappers
  import opened UriComponent

  const ThankYouMs := 5000

  /** The `name` attribute of the control that changed. */
  datatype Field = Name | Email | Subject | Message

  /** `formData` and `submitted`, with the deadlines of the pending timeouts
      that clear `submitted`, earliest first. */
  datatype Form = Form(
    name: JsString,
    email: JsString,
    subject: JsString,
    message: JsString,
    submitted: bool,
    resets: seq<int>)

  function Init(): (f: Form)
    ensures f.name == f.email == f.subject == f.message == []
    ensures !f.submitted && f.resets == []
  {
    Form([], [], [], [], false, [])
  }

  function Value(f: Form, field: Field): JsString {
    match field
    case Name => f.name
    case Email => f.email
    case Subject => f.subject
    case Message => f.message
  }

  /** `handleChange`: the named field takes the new value and nothing else moves. */
  function HandleChange(f: Form, field: Field, value: JsString): (r: Form)
    ensures Value(r, field) == value
    ensures forall other :: other != field ==> Value(r, other) == Value(f, other)
    ensures r.submitted == f.submitted && r.resets == f.resets
  {
    match field
    case Name => f.(name := value)
    case Email => f.(email := value)
    case Subject => f.(subject := value)
    case Message => f.(message := value)
  }

  /** Two edits of the same field: the last one wins. */
  lemma LastEditWins(f: Form, field: Field, a: JsString, b: JsString)
    ensures HandleChange(HandleChange(f, field, a), field, b) == HandleChange(f, field, b)
  {
  }

  // ---------------------------------------------------------------------------
  // The mailto link
  // ---------------------------------------------------------------------------

  const Recipient: string := "the.creatorz.team@gmail.com"

  function MailtoPrefix(): JsString {
    Units("mailto:" + Recipient + "?subject=")
  }

  function BodyKey(): JsString {
    Units("&body=")
  }

  /** The body text: the greeting with the name and the address in
      parentheses, a blank line, then the message. */
  function Body(f: Form): JsString {
    Units("Hi, my name is ") + f.name + Units(" (") + f.email + Units(").\n\n") + f.message
  }

  /** What submitting does: the address the window is sent to, if any, and
      the form afterwards. */
  datatype Submission = Submission(href: Option<JsString>, form: Form)

  /** `handleSubmit` at time `now`. Encoding the subject, then the body, may
      raise URIError; the handler then stops before navigating or touching
      the form. Otherwise the window goes to the mailto link, the note shows
      and a timeout to hide it is scheduled. */
  function Submit(f: Form, now: int): (s: Submission)
    ensures s.href.None? ==> s.form == f
    ensures s.href.Some? ==> s.form == f.(submitted := true, resets := f.resets + [now + ThankYouMs])
    ensures s.href.Some? ==> Encode(f.subject).Some? && Encode(Body(f)).Some?
    ensures s.href.Some? ==>
      s.href.value == MailtoPrefix() + Encode(f.subject).value + BodyKey() + Encode(Body(f)).value
  {
    match Encode(f.subject)
    case None => Submission(None, f)
    case Some(subject) =>
      match Encode(Body(f))
      case None => Submission(None, f)
      case Some(body) =>
        Submission(Some(MailtoPrefix() + subject + BodyKey() + body),
                   f.(submitted := true, resets := f.resets + [now + ThankYouMs]))
  }

  /** Submitting navigates exactly when no field holds a lone surrogate. */
  lemma SubmitNavigatesIff(f: Form, now: int)
    ensures Submit(f, now).href.Some? <==>
      WellFormed(f.name) && WellFormed(f.email) && WellFormed(f.subject) && WellFormed(f.message)
  {
    EncodeDefinedIff(f.subject);
    EncodeDefinedIff(Body(f));
    BodyWellFormed(f);
  }

  /** The fixed pieces of the body are ASCII, so the body is well formed exactly
      when the three fields in it are. */
  lemma BodyWellFormed(f: Form)
    ensures WellFormed(Body(f)) <==> WellFormed(f.name) && WellFormed(f.email) && WellFormed(f.message)
  {
    var greet, open, close := Units("Hi, my name is "), Units(" ("), Units(").\n\n");
    AsciiWellFormed(greet);
    AsciiWellFormed(open);
    AsciiWellFormed(close);
    WellFormedAppend(greet, f.name);
    WellFormedAppend(greet + f.name, open);
    WellFormedAppend(greet + f.name + open, f.email);
    WellFormedAppend(greet + f.name + open + f.email, close);
    WellFormedAppend(greet + f.name + open + f.email + close, f.message);
  }

  lemma AsciiWellFormed(s: JsString)
    requires forall i :: 0 <= i < |s| ==> s[i] < 0x80
    ensures WellFormed(s)
  {
  }

  /** Two strings that do not meet in a lead surrogate followed by a trail
      surrogate are well formed together exactly when each is. */
  lemma WellFormedAppend(a: JsString, b: JsString)
    requires !(|a| > 0 && |b| > 0 && IsLead(a[|a| - 1]) && IsTrail(b[0]))
    ensures WellFormed(a + b) <==> WellFormed(a) && WellFormed(b)
  {
    var ab := a + b;
    if WellFormed(ab) {
      forall k | 0 <= k < |a|
        ensures PairedAt(a, k)
      {
        assert PairedAt(ab, k);
      }
      forall k | 0 <= k < |b|
        ensures PairedAt(b, k)
      {
        assert PairedAt(ab, |a| + k);
        assert ab[|a| + k] == b[k];
      }
    }
    if WellFormed(a) && WellFormed(b) {
      forall k | 0 <= k < |ab|
        ensures PairedAt(ab, k)
      {
        if k < |a| {
          assert PairedAt(a, k);
        } else {
          assert PairedAt(b, k - |a|);
        }
      }
    }
  }

  /** The position of the first `&` in `t`. */
  function FindAmpersand(t: JsString): (r: Option<nat>)
    ensures r.Some? ==> r.value < |t| && t[r.value] == 0x26
    ensures r.Some? ==> forall i :: 0 <= i < r.value ==> t[i] != 0x26
    ensures r.None? ==> forall i :: 0 <= i < |t| ==> t[i] != 0x26
    decreases |t|
  {
    if |t| == 0 then None
    else if t[0] == 0x26 then Some(0)
    else
      match FindAmpersand(t[1..])
      case None => None
      case Some(k) => Some(k + 1)
  }

  /** How a mail client reads the link: the subject runs from after the prefix
      to the first `&`, which must start `&body=`; the body is the rest. */
  function MailtoFields(href: JsString): Option<(JsString, JsString)> {
    var p := MailtoPrefix();
    if !(p <= href) then None else QueryFields(href[|p|..])
  }

  /** The query after `?subject=`, cut at its first `&`. */
  function QueryFields(rest: JsString): Option<(JsString, JsString)> {
    match FindAmpersand(rest)
    case None => None
    case Some(k) =>
      if BodyKey() <= rest[k..] then Some((rest[..k], rest[k + |BodyKey()|..])) else None
  }

  /** The link the form opens splits back into its two encoded fields, which
      decode to the subject and the body: no encoded field contains `&`. */
  lemma MailtoRoundTrip(f: Form, now: int)
    requires Submit(f, now).href.Some?
    ensures MailtoFields(Submit(f, now).href.value) == Some((Encode(f.subject).value, Encode(Body(f)).value))
    ensures Decode(Encode(f.subject).value) == Some(f.subject)
    ensures Decode(Encode(Body(f)).value) == Some(Body(f))
  {
    var es, eb := Encode(f.subject).value, Encode(Body(f)).value;
    assert forall i :: 0 <= i < |es| ==> IsEncodedUnit(es[i]);
    SplitLink(es, eb);
    DecodeEncode(f.subject);
    DecodeEncode(Body(f));
  }

  /** A link built from an `&`-free subject splits back into subject and body. */
  lemma SplitLink(es: JsString, eb: JsString)
    requires forall i :: 0 <= i < |es| ==> es[i] != 0x26
    ensures MailtoFields(MailtoPrefix() + es + BodyKey() + eb) == Some((es, eb))
  {
    var p, query := MailtoPrefix(), es + BodyKey() + eb;
    assert p + es + BodyKey() + eb == p + query;
    assert (p + query)[..|p|] == p;
    assert (p + query)[|p|..] == query;
    SplitQuery(es, eb);
  }

  lemma SplitQuery(es: JsString, eb: JsString)
    requires forall i :: 0 <= i < |es| ==> es[i] != 0x26
    ensures QueryFields(es + BodyKey() + eb) == Some((es, eb))
  {
    var key := BodyKey();
    var rest := es + (key + eb);
    assert rest == es + key + eb;
    assert |key| == 6 && key[0] == 0x26;
    assert forall i :: 0 <= i < |es| ==> rest[i] == es[i];
    assert rest[|es|] == 0x26;
    assert FindAmpersand(rest) == Some(|es|);
    assert rest[|es|..] == key + eb;
    assert rest[..|es|] == es;
    assert rest[|es| + |key|..] == eb;
  }

  /** `u` occurs in `s` at position `k` and nowhere else. */
  predicate OnlyAt(s: JsString, u: Unit, k: int) {
    0 <= k < |s| && s[k] == u && forall i :: 0 <= i < |s| && s[i] == u ==> i == k
  }

  const QuestionMark: Unit := 0x3F
  const Ampersand: Unit := 0x26

  /** Whatever the visitor typed, the link has exactly one `?`, ending the
      address, and exactly one `&`, starting the body: the encoder never emits
      either. */
  lemma LinkSeparators(f: Form, now: int)
    requires Submit(f, now).href.Some?
    ensures var h := Submit(f, now).href.value;
      && OnlyAt(h, QuestionMark, |MailtoPrefix()| - 9)
      && OnlyAt(h, Ampersand, |MailtoPrefix()| + |Encode(f.subject).value|)
  {
    var es, eb := Encode(f.subject).value, Encode(Body(f)).value;
    SeparatorsOfLink(es, eb);
  }

  lemma SeparatorsOfLink(es: JsString, eb: JsString)
    requires forall i :: 0 <= i < |es| ==> IsEncodedUnit(es[i])
    requires forall i :: 0 <= i < |eb| ==> IsEncodedUnit(eb[i])
    ensures var h := MailtoPrefix() + es + BodyKey() + eb;
      && OnlyAt(h, QuestionMark, |MailtoPrefix()| - 9)
      && OnlyAt(h, Ampersand, |MailtoPrefix()| + |es|)
  {
    var p, key := MailtoPrefix(), BodyKey();
    var h := p + es + key + eb;
    PrefixSeparators();
    KeySeparators();
    forall i | 0 <= i < |h|
      ensures h[i] == QuestionMark ==> i == |p| - 9
      ensures h[i] == Ampersand ==> i == |p| + |es|
    {
      if i < |p| {
        assert h[i] == p[i];
      } else if i < |p| + |es| {
        assert h[i] == es[i - |p|];
      } else if i < |p| + |es| + |key| {
        assert h[i] == key[i - |p| - |es|];
      } else {
        assert h[i] == eb[i - |p| - |es| - |key|];
      }
    }
    assert h[|p| - 9] == p[|p| - 9];
    assert h[|p| + |es|] == key[0];
  }

  /** The address part: its one `?` opens the query and it has no `&`. */
  lemma PrefixSeparators()
    ensures |MailtoPrefix()| >= 9
    ensures forall i :: 0 <= i < |MailtoPrefix()| ==> MailtoPrefix()[i] != Ampersand
    ensures forall i :: 0 <= i < |MailtoPrefix()| ==> (MailtoPrefix()[i] == QuestionMark <==> i == |MailtoPrefix()| - 9)
  {
  }

  /** `&body=`: one `&`, at its start, and no `?`. */
  lemma KeySeparators()
    ensures |BodyKey()| == 6 && BodyKey()[0] == Ampersand
    ensures forall i :: 0 <= i < |BodyKey()| ==> BodyKey()[i] != QuestionMark
    ensures forall i :: 1 <= i < |BodyKey()| ==> BodyKey()[i] != Ampersand
  {
  }

  // ---------------------------------------------------------------------------
  // The thank-you note
  // ---------------------------------------------------------------------------

  /** The earliest pending timeout fires and hides the note, whichever
      submission scheduled it. */
  function ResetFires(f: Form): (r: Form)
    ensures |f.resets| > 0 ==> !r.submitted && r.resets == f.resets[1..]
    ensures |f.resets| == 0 ==> r == f
    ensures r.(submitted := f.submitted, resets := f.resets) == f
  {
    if |f.resets| == 0 then f else f.(submitted := false, resets := f.resets[1..])
  }

  /** Submitting twice within five seconds: the first timeout hides the note
      even though the second submission is more recent. */
  lemma FirstTimeoutHidesSecondNote(f: Form)
    requires WellFormed(f.name) && WellFormed(f.email) && WellFormed(f.subject) && WellFormed(f.message)
    requires f.resets == []
    ensures var once := Submit(f, 0).form;
      var twice := Submit(once, 3000).form;
      && twice.submitted && twice.resets == [5000, 8000]
      && !ResetFires(twice).submitted && ResetFires(twice).resets == [8000]
  {
    SubmitNavigatesIff(f, 0);
    SubmitNavigatesIff(Submit(f, 0).form, 3000);
  }
}
