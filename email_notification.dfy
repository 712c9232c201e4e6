/** The e-mail notification method of the scheduled health checks: the
    colour highlighting of the status markers in the report, the subject
    default and the HTML detection of the mail it builds, and the guards that
    decide whether anything is sent. Rendering the report, localizing the
    texts and delivering the mail are services outside the model; their
    results come in as parameters. */
module EmailNotification {
  import W = Wrappers
  import opened DotNetText

  // ---------------------------------------------------------------------------
  // Status highlighting

  /** The three health-check outcomes the report highlights. */
  datatype StatusResultType = Success | Warning | Error

  /** The enum value's name, as `ToString()` spells it. */
  function Name(status: StatusResultType): string {
    match status
    case Success => "Success"
    case Warning => "Warning"
    case Error => "Error"
  }

  const SuccessHexColor: string := "5cb85c"
  const WarningHexColor: string := "f0ad4e"
  const ErrorHexColor: string := "d9534f"

  /** The colour each status is highlighted with. */
  function Color(status: StatusResultType): string {
    match status
    case Success => SuccessHexColor
    case Warning => WarningHexColor
    case Error => ErrorHexColor
  }

  /** The marker the report holds for a status: `Result: 'Success'`. */
  function Marker(status: StatusResultType): string {
    "Result: '" + Name(status) + "'"
  }

  /** The coloured element that replaces the quoted status name. */
  function Span(status: StatusResultType, color: string): string {
    "<span style=\"color: #" + color + "\">" + Name(status) + "</span>"
  }

  /** The replacement for a marker: `Result: <span style="color: #…">Success</span>`. */
  function Highlight(status: StatusResultType, color: string): string {
    "Result: " + Span(status, color)
  }

  /** An anchored word followed by text without its anchor stays anchored. */
  lemma AnchoredAppend(w: string, tail: string, c: char)
    requires Anchored(w, c) && c !in tail
    ensures Anchored(w + tail, c)
  {
    assert (w + tail)[1..] == w[1..] + tail;
  }

  lemma NameHasNoR(x: StatusResultType)
    ensures 'R' !in Name(x) && 'R' !in Color(x)
  {
  }

  lemma SpanHasNoR(x: StatusResultType, color: string)
    requires 'R' !in color
    ensures 'R' !in Span(x, color)
  {
    NameHasNoR(x);
    assert 'R' !in "<span style=\"color: #" && 'R' !in "\">" && 'R' !in "</span>";
  }

  /** A marker starts with the one `R` it holds. */
  lemma MarkerAnchored(x: StatusResultType)
    ensures Anchored(Marker(x), 'R')
  {
    NameHasNoR(x);
    assert Anchored("Result: '", 'R');
    AnchoredAppend("Result: '", Name(x), 'R');
    AnchoredAppend("Result: '" + Name(x), "'", 'R');
  }

  /** So does a highlight whose colour holds no `R`. */
  lemma HighlightAnchored(x: StatusResultType, color: string)
    requires 'R' !in color
    ensures Anchored(Highlight(x, color), 'R')
  {
    assert Anchored("Result: ", 'R');
    SpanHasNoR(x, color);
    AnchoredAppend("Result: ", Span(x, color), 'R');
  }

  /** A highlight is at least as long as any marker, and the two part at their
      ninth character (`<` against `'`). */
  lemma HighlightNotMarker(x: StatusResultType, color: string, y: StatusResultType)
    ensures |Highlight(x, color)| >= |Marker(y)|
    ensures !StartsWith(Highlight(x, color), Marker(y)) && !StartsWith(Marker(y), Highlight(x, color))
  {
    var h, m := Highlight(x, color), Marker(y);
    assert h[8] == Span(x, color)[0] == '<';
    assert m[8] == ("Result: '" + Name(y))[8] == '\'';
    assert h[..|m|][8] == h[8] && m[..9][8] == m[8];
  }

  /** Markers of different statuses part at their tenth character. */
  lemma MarkersDiffer(x: StatusResultType, y: StatusResultType)
    requires x != y
    ensures !StartsWith(Marker(x), Marker(y))
  {
    assert Marker(x)[9] == Name(x)[0] && Marker(y)[9] == Name(y)[0];
  }

  lemma HighlightForStatusFacts(html: string, status: StatusResultType, color: string)
    ensures !Contains(html, Marker(status)) ==> ReplaceAll(html, Marker(status), Highlight(status, color)) == html
    ensures Contains(html, Marker(status)) ==> Contains(ReplaceAll(html, Marker(status), Highlight(status, color)), Highlight(status, color))
    ensures 'R' !in color ==> !Contains(ReplaceAll(html, Marker(status), Highlight(status, color)), Marker(status))
  {
    var m, h := Marker(status), Highlight(status, color);
    if !Contains(html, m) {
      ReplaceAbsent(html, m, h);
    } else {
      ReplaceInserts(html, m, h);
    }
    if 'R' !in color {
      MarkerAnchored(status);
      HighlightAnchored(status, color);
      HighlightNotMarker(status, color, status);
      ReplaceLeavesNo(html, m, h, m, 'R');
    }
  }

  /** `ApplyHtmlHighlightingForStatus`: every marker of `status` becomes its
      highlight. Text without the marker is unchanged; text with it gains the
      highlight; and, for a colour without an `R`, no marker is left. */
  function ApplyHtmlHighlightingForStatus(html: string, status: StatusResultType, color: string): (r: string)
    ensures !Contains(html, Marker(status)) ==> r == html
    ensures Contains(html, Marker(status)) ==> Contains(r, Highlight(status, color))
    ensures 'R' !in color ==> !Contains(r, Marker(status))
  {
    HighlightForStatusFacts(html, status, color);
    ReplaceAll(html, Marker(status), Highlight(status, color))
  }

  /** A highlighting step for `p` keeps the markers and highlights of the other statuses. */
  lemma StepKeeps(h: string, p: StatusResultType, w: string, x: StatusResultType)
    requires w == Marker(x) || w == Highlight(x, Color(x))
    requires w == Marker(x) ==> x != p
    requires Contains(h, w)
    ensures Contains(ApplyHtmlHighlightingForStatus(h, p, Color(p)), w)
  {
    MarkerAnchored(p);
    if w == Marker(x) {
      MarkerAnchored(x);
      MarkersDiffer(x, p);
      MarkersDiffer(p, x);
    } else {
      NameHasNoR(x);
      HighlightAnchored(x, Color(x));
      HighlightNotMarker(x, Color(x), p);
    }
    ReplaceKeeps(h, Marker(p), Highlight(p, Color(p)), w, 'R');
  }

  /** A highlighting step creates no marker that was not there. */
  lemma StepAddsNoMarker(h: string, p: StatusResultType, x: StatusResultType)
    requires !Contains(h, Marker(x))
    ensures !Contains(ApplyHtmlHighlightingForStatus(h, p, Color(p)), Marker(x))
  {
    NameHasNoR(p);
    MarkerAnchored(p);
    MarkerAnchored(x);
    HighlightAnchored(p, Color(p));
    HighlightNotMarker(p, Color(p), x);
    ReplaceLeavesNo(h, Marker(p), Highlight(p, Color(p)), Marker(x), 'R');
  }

  /** After the three steps no marker of `st` is left. */
  lemma NoMarkerLeft(html: string, h1: string, h2: string, r: string, st: StatusResultType)
    requires h1 == ApplyHtmlHighlightingForStatus(html, Success, SuccessHexColor)
    requires h2 == ApplyHtmlHighlightingForStatus(h1, Warning, WarningHexColor)
    requires r == ApplyHtmlHighlightingForStatus(h2, Error, ErrorHexColor)
    ensures !Contains(r, Marker(st))
  {
    NameHasNoR(st);
    match st
    case Success =>
      StepAddsNoMarker(h1, Warning, Success);
      StepAddsNoMarker(h2, Error, Success);
    case Warning =>
      StepAddsNoMarker(h2, Error, Warning);
    case Error =>
  }

  /** After the three steps a status whose marker the report held shows its
      highlight. */
  lemma HighlightReached(html: string, h1: string, h2: string, r: string, st: StatusResultType)
    requires h1 == ApplyHtmlHighlightingForStatus(html, Success, SuccessHexColor)
    requires h2 == ApplyHtmlHighlightingForStatus(h1, Warning, WarningHexColor)
    requires r == ApplyHtmlHighlightingForStatus(h2, Error, ErrorHexColor)
    requires Contains(html, Marker(st))
    ensures Contains(r, Highlight(st, Color(st)))
  {
    match st
    case Success =>
      StepKeeps(h1, Warning, Highlight(Success, SuccessHexColor), Success);
      StepKeeps(h2, Error, Highlight(Success, SuccessHexColor), Success);
    case Warning =>
      StepKeeps(html, Success, Marker(Warning), Warning);
      StepKeeps(h2, Error, Highlight(Warning, WarningHexColor), Warning);
    case Error =>
      StepKeeps(html, Success, Marker(Error), Error);
      StepKeeps(h1, Warning, Marker(Error), Error);
  }

  lemma HighlightingFacts(html: string, h1: string, h2: string, r: string)
    requires h1 == ApplyHtmlHighlightingForStatus(html, Success, SuccessHexColor)
    requires h2 == ApplyHtmlHighlightingForStatus(h1, Warning, WarningHexColor)
    requires r == ApplyHtmlHighlightingForStatus(h2, Error, ErrorHexColor)
    ensures forall st :: !Contains(r, Marker(st))
    ensures forall st :: Contains(html, Marker(st)) ==> Contains(r, Highlight(st, Color(st)))
  {
    forall st: StatusResultType
      ensures !Contains(r, Marker(st))
    {
      NoMarkerLeft(html, h1, h2, r, st);
    }
    forall st: StatusResultType | Contains(html, Marker(st))
      ensures Contains(r, Highlight(st, Color(st)))
    {
      HighlightReached(html, h1, h2, r, st);
    }
  }

  /** `ApplyHtmlHighlighting`: Success, then Warning, then Error. No marker is
      left, every status that had a marker gains its coloured highlight, and a
      report without markers is unchanged. */
  function ApplyHtmlHighlighting(html: string): (r: string)
    ensures forall st :: !Contains(r, Marker(st))
    ensures forall st :: Contains(html, Marker(st)) ==> Contains(r, Highlight(st, Color(st)))
    ensures (forall st :: !Contains(html, Marker(st))) ==> r == html
  {
    var h1 := ApplyHtmlHighlightingForStatus(html, Success, SuccessHexColor);
    var h2 := ApplyHtmlHighlightingForStatus(h1, Warning, WarningHexColor);
    var r := ApplyHtmlHighlightingForStatus(h2, Error, ErrorHexColor);
    HighlightingFacts(html, h1, h2, r);
    r
  }

  /** One step replaces a marker of its status where it stands: text before it
      without an `R` is kept, and the scan goes on after it. */
  lemma HighlightForStatusInPlace(u: string, st: StatusResultType, color: string, v: string)
    requires 'R' !in u
    ensures ApplyHtmlHighlightingForStatus(u + Marker(st) + v, st, color)
         == u + Highlight(st, color) + ApplyHtmlHighlightingForStatus(v, st, color)
  {
    var m, h := Marker(st), Highlight(st, color);
    MarkerAnchored(st);
    assert u + m + v == u + (m + v);
    ReplaceSkipsPrefix(u, m + v, m, h);
    ReplaceAtStart(m, v, h);
  }

  /** After a step, a text starts with a marker only if it did before. */
  lemma StepStartsNoMarker(a: char, v: string, p: StatusResultType, q: StatusResultType)
    ensures StartsWith([a] + ApplyHtmlHighlightingForStatus(v, p, Color(p)), Marker(q)) ==> StartsWith([a] + v, Marker(q))
  {
    var m, t := Marker(q), ApplyHtmlHighlightingForStatus(v, p, Color(p));
    if StartsWith([a] + t, m) {
      MarkerAnchored(q);
      assert ([a] + t)[..|m|] == [a] + t[..|m| - 1];
      assert StartsWith(t, m[1..]);
      NameHasNoR(p);
      HighlightAnchored(p, Color(p));
      ReplacePrefixOrigin(v, Marker(p), Highlight(p, Color(p)), m[1..]);
      assert ([a] + v)[..|m|] == [a] + v[..|m| - 1];
      assert m == [m[0]] + m[1..];
    }
  }

  /** A character that starts no marker of `p` is copied by `p`'s step, and
      still starts no marker of `q` afterwards. */
  lemma StepCons(a: char, v: string, p: StatusResultType, q: StatusResultType)
    requires !StartsWith([a] + v, Marker(p)) && !StartsWith([a] + v, Marker(q))
    ensures ApplyHtmlHighlightingForStatus([a] + v, p, Color(p)) == [a] + ApplyHtmlHighlightingForStatus(v, p, Color(p))
    ensures !StartsWith([a] + ApplyHtmlHighlightingForStatus(v, p, Color(p)), Marker(q))
  {
    ReplaceCons(a, v, Marker(p), Highlight(p, Color(p)));
    StepStartsNoMarker(a, v, p, q);
  }

  /** A marker of another status passes through `p`'s step unchanged. */
  lemma StepOverMarker(x: StatusResultType, v: string, p: StatusResultType)
    requires x != p
    ensures ApplyHtmlHighlightingForStatus(Marker(x) + v, p, Color(p)) == Marker(x) + ApplyHtmlHighlightingForStatus(v, p, Color(p))
  {
    MarkerAnchored(x);
    MarkerAnchored(p);
    MarkersDiffer(x, p);
    MarkersDiffer(p, x);
    ReplaceSkipsWord(Marker(x), v, Marker(p), Highlight(p, Color(p)), 'R');
  }

  /** An earlier highlight passes through `p`'s step unchanged. */
  lemma StepOverHighlight(x: StatusResultType, v: string, p: StatusResultType)
    ensures ApplyHtmlHighlightingForStatus(Highlight(x, Color(x)) + v, p, Color(p))
         == Highlight(x, Color(x)) + ApplyHtmlHighlightingForStatus(v, p, Color(p))
  {
    NameHasNoR(x);
    HighlightAnchored(x, Color(x));
    MarkerAnchored(p);
    HighlightNotMarker(x, Color(x), p);
    ReplaceSkipsWord(Highlight(x, Color(x)), v, Marker(p), Highlight(p, Color(p)), 'R');
  }

  /** `p`'s step turns a marker of `p` at the start into its highlight. */
  lemma StepAtMarker(p: StatusResultType, v: string)
    ensures ApplyHtmlHighlightingForStatus(Marker(p) + v, p, Color(p))
         == Highlight(p, Color(p)) + ApplyHtmlHighlightingForStatus(v, p, Color(p))
  {
    ReplaceAtStart(Marker(p), v, Highlight(p, Color(p)));
  }

  /** A report that starts with no marker keeps its first character. */
  lemma HighlightingCons(a: char, v: string)
    requires forall st :: !StartsWith([a] + v, Marker(st))
    ensures ApplyHtmlHighlighting([a] + v) == [a] + ApplyHtmlHighlighting(v)
  {
    var v1 := ApplyHtmlHighlightingForStatus(v, Success, SuccessHexColor);
    var v2 := ApplyHtmlHighlightingForStatus(v1, Warning, WarningHexColor);
    StepCons(a, v, Success, Warning);
    StepCons(a, v, Success, Error);
    StepCons(a, v1, Warning, Error);
    StepCons(a, v2, Error, Error);
  }

  /** A report that starts with a marker has it replaced by its status's
      highlight, and the rest is highlighted on its own. */
  lemma HighlightingAtMarker(st: StatusResultType, v: string)
    ensures ApplyHtmlHighlighting(Marker(st) + v) == Highlight(st, Color(st)) + ApplyHtmlHighlighting(v)
  {
    var v1 := ApplyHtmlHighlightingForStatus(v, Success, SuccessHexColor);
    var v2 := ApplyHtmlHighlightingForStatus(v1, Warning, WarningHexColor);
    match st
    case Success =>
      StepAtMarker(Success, v);
      StepOverHighlight(Success, v1, Warning);
      StepOverHighlight(Success, v2, Error);
    case Warning =>
      StepOverMarker(Warning, v, Success);
      StepAtMarker(Warning, v1);
      StepOverHighlight(Warning, v2, Error);
    case Error =>
      StepOverMarker(Error, v, Success);
      StepOverMarker(Error, v1, Warning);
      StepAtMarker(Error, v2);
  }

  /** Every marker starts with `R`. */
  lemma NoMarkerStartsWith(a: char, rest: string)
    requires a != 'R'
    ensures forall x :: !StartsWith([a] + rest, Marker(x))
  {
    forall x: StatusResultType
      ensures !StartsWith([a] + rest, Marker(x))
    {
      MarkerAnchored(x);
    }
  }

  lemma ConsSplit(u: string, m: string, v: string)
    requires u != []
    ensures u + m + v == [u[0]] + (u[1..] + m + v)
  {
    assert u == [u[0]] + u[1..];
  }

  /** Each marker is replaced where it stands: text before it without an `R` is
      kept, and the rest of the report is highlighted on its own. */
  lemma {:induction false} HighlightingInPlace(u: string, st: StatusResultType, v: string)
    requires 'R' !in u
    ensures ApplyHtmlHighlighting(u + Marker(st) + v) == u + Highlight(st, Color(st)) + ApplyHtmlHighlighting(v)
    decreases |u|
  {
    var m, h := Marker(st), Highlight(st, Color(st));
    if u == [] {
      calc {
        ApplyHtmlHighlighting(u + m + v);
        { assert u + m + v == m + v; }
        ApplyHtmlHighlighting(m + v);
        { HighlightingAtMarker(st, v); }
        h + ApplyHtmlHighlighting(v);
        { assert u + h == h; }
        u + h + ApplyHtmlHighlighting(v);
      }
    } else {
      var a := u[0];
      var rest := u[1..] + m + v;
      calc {
        ApplyHtmlHighlighting(u + m + v);
        { ConsSplit(u, m, v); }
        ApplyHtmlHighlighting([a] + rest);
        { NoMarkerStartsWith(a, rest); HighlightingCons(a, rest); }
        [a] + ApplyHtmlHighlighting(rest);
        { HighlightingInPlace(u[1..], st, v); }
        [a] + (u[1..] + h + ApplyHtmlHighlighting(v));
        { ConsSplit(u, h, ApplyHtmlHighlighting(v)); }
        u + h + ApplyHtmlHighlighting(v);
      }
    }
  }

  // ---------------------------------------------------------------------------
  // The mail message

  const DefaultSubject: string := "Umbraco Health Check Status"

  /** The subject actually used: the given one unless it is null or blank. */
  function MailSubject(subject: W.Option<string>): (r: string)
    ensures !IsNullOrWhiteSpace(W.Some(r))
    ensures !IsNullOrWhiteSpace(subject) ==> r == subject.value
    ensures IsNullOrWhiteSpace(subject) ==> r == DefaultSubject
  {
    assert DefaultSubject[0] == 'U';
    if IsNullOrWhiteSpace(subject) then DefaultSubject else subject.value
  }

  /** Whether the body is sent as HTML: non-blank and holding both `<` and `</`,
      which comes down to holding a closing tag opener `</`. */
  function IsBodyHtml(message: W.Option<string>): (b: bool)
    ensures b <==> message.Some? && Contains(message.value, "</")
  {
    if message.Some? && Contains(message.value, "</") then
      ContainsNotBlank(message.value, "</");
      assert StartsWith("</", "<");
      ContainsTransitive(message.value, "</", "<");
      true
    else
      !IsNullOrWhiteSpace(message) && Contains(message.value, "<") && Contains(message.value, "</")
  }

  /** `EmailMessage(from, to, subject, body, isBodyHtml)`. */
  datatype EmailMessage = EmailMessage(from: W.Option<string>, to: W.Option<string>, subject: string, body: W.Option<string>, isBodyHtml: bool)

  // ---------------------------------------------------------------------------
  // The notification method

  class EmailNotificationMethod {
    /** `Enabled`, from the base class's settings. */
    var enabled: bool
    /** `RecipientEmail`. */
    var recipientEmail: W.Option<string>
    /** `_contentSettings?.Notifications.Email`: the sender address. */
    var notificationsEmail: W.Option<string>
    /** Whether the content-settings change callback was registered. */
    var followsSettings: bool

    /** The constructor: a null or blank `RecipientEmail` setting disables the
        method and leaves it unconfigured; otherwise it keeps the recipient and
        the sender address and follows later settings changes. */
    constructor (recipientSetting: W.Option<string>, enabledSetting: bool, notificationsEmail: W.Option<string>)
      ensures IsNullOrWhiteSpace(recipientSetting) ==>
                !enabled && recipientEmail.None? && this.notificationsEmail.None? && !followsSettings
      ensures !IsNullOrWhiteSpace(recipientSetting) ==>
                enabled == enabledSetting && recipientEmail == recipientSetting
                && this.notificationsEmail == notificationsEmail && followsSettings
    {
      enabled := enabledSetting;
      recipientEmail := W.None;
      this.notificationsEmail := W.None;
      followsSettings := false;
      new;
      if IsNullOrWhiteSpace(recipientSetting) {
        enabled := false;
        return;
      }
      recipientEmail := recipientSetting;
      this.notificationsEmail := notificationsEmail;
      followsSettings := true;
    }

    /** The registered `OnChange` callback: new content settings replace the
        sender address, when the callback was registered. */
    method ContentSettingsChanged(email: W.Option<string>)
      modifies this
      ensures notificationsEmail == (if followsSettings then email else old(notificationsEmail))
      ensures enabled == old(enabled) && recipientEmail == old(recipientEmail) && followsSettings == old(followsSettings)
    {
      if followsSettings {
        notificationsEmail := email;
      }
    }

    /** `CreateMailMessage(subject, message)`: from the sender address to the
        recipient, with the default subject in place of a blank one, as HTML exactly when the body
        holds a closing tag opener. */
    function CreateMailMessage(subject: W.Option<string>, message: W.Option<string>): (m: EmailMessage)
      reads this
      ensures m.from == notificationsEmail && m.to == recipientEmail && m.body == message
      ensures !IsNullOrWhiteSpace(W.Some(m.subject))
      ensures !IsNullOrWhiteSpace(subject) ==> m.subject == subject.value
      ensures IsNullOrWhiteSpace(subject) ==> m.subject == DefaultSubject
      ensures m.isBodyHtml <==> message.Some? && Contains(message.value, "</")
    {
      EmailMessage(notificationsEmail, recipientEmail, MailSubject(subject), message, IsBodyHtml(message))
    }

    /** `SendAsync`: nothing when the results should not be sent or there is no
        recipient; otherwise the mail built from the highlighted report.
        `shouldSend` is the base class's `ShouldSend(results)`, `html` the
        converted report, `localizeBody` the localized body template filled
        with the report, `localizedSubject` the localized subject. */
    method SendAsync(shouldSend: bool, html: string, localizeBody: string -> W.Option<string>, localizedSubject: W.Option<string>)
      returns (sent: W.Option<EmailMessage>)
      ensures sent.Some? <==> shouldSend && !IsNullOrEmpty(recipientEmail)
      ensures sent.Some? ==> sent.value == CreateMailMessage(localizedSubject, localizeBody(ApplyHtmlHighlighting(html)))
      ensures sent.Some? ==> sent.value.to == recipientEmail && !IsNullOrWhiteSpace(W.Some(sent.value.subject))
      ensures sent.Some? && IsNullOrWhiteSpace(localizedSubject) ==> sent.value.subject == DefaultSubject
    {
      if !shouldSend {
        return W.None;
      }
      if IsNullOrEmpty(recipientEmail) {
        return W.None;
      }
      var highlighted := ApplyHtmlHighlighting(html);
      var message := localizeBody(highlighted);
      var mailMessage := CreateMailMessage(localizedSubject, message);
      return W.Some(mailMessage);
    }
  }

  /** The coloured element of a status occurs wherever its highlight does. */
  lemma SpanInHighlight(s: string, st: StatusResultType)
    requires Contains(s, Highlight(st, Color(st)))
    ensures Contains(s, Span(st, Color(st)))
  {
    var span := Span(st, Color(st));
    assert StartsWith(span, span);
    ContainsAppendLeft("Result: ", span, span);
    ContainsTransitive(s, Highlight(st, Color(st)), span);
  }

  /** A coloured element holds a closing tag opener. */
  lemma SpanHasClosingTag(st: StatusResultType, color: string)
    ensures Contains(Span(st, color), "</")
  {
    assert StartsWith("</span>", "</");
    ContainsAppendLeft("<span style=\"color: #" + color + "\">" + Name(st), "</span>", "</");
  }

  /** A report holding all three markers, placed in a body: the body shows the
      three coloured status elements and is sent as HTML. */
  lemma HighlightedReportIsHtml(html: string, body: string)
    requires Contains(html, Marker(Success)) && Contains(html, Marker(Warning)) && Contains(html, Marker(Error))
    requires Contains(body, ApplyHtmlHighlighting(html))
    ensures Contains(body, Span(Success, "5cb85c"))
    ensures Contains(body, Span(Warning, "f0ad4e"))
    ensures Contains(body, Span(Error, "d9534f"))
    ensures IsBodyHtml(W.Some(body))
  {
    var r := ApplyHtmlHighlighting(html);
    SpanInHighlight(r, Success);
    SpanInHighlight(r, Warning);
    SpanInHighlight(r, Error);
    ContainsTransitive(body, r, Span(Success, SuccessHexColor));
    ContainsTransitive(body, r, Span(Warning, WarningHexColor));
    ContainsTransitive(body, r, Span(Error, ErrorHexColor));
    SpanHasClosingTag(Success, SuccessHexColor);
    ContainsTransitive(body, Span(Success, SuccessHexColor), "</");
  }
}
