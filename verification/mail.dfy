/** The decision logic of `MailSender.send_email`: the Message-ID domain, the
    plain-text alternative built from the HTML, the choice between implicit
    TLS and STARTTLS by port, and the `(success, message)` pair returned for
    each outcome. The SMTP conversation itself is an oracle.
 */
module Mail {
  import opened Storage
  import opened Text

  // ---------------------------------------------------------------------
  // Message-ID domain

  /** `username.split('@')[1] if '@' in username else "localhost"`. */
  function MessageIdDomain(username: string): (r: string)
    ensures '@' !in username ==> r == "localhost"
    ensures '@' !in r
  {
    if '@' in username then
      ContainsChar(username, '@');
      SplitOfContained(username, "@");
      SplitPiecesFree(username, "@", 1);
      ContainsChar(Split(username, "@")[1], '@');
      Split(username, "@")[1]
    else "localhost"
  }

  /** Splitting at a character `c`: when `s` is `a` followed by `t`, `a` holds no
      `c` and `t` is empty or starts with `c`, the first piece is `a` and the
      remaining pieces are the split of what follows that `c`. */
  lemma SplitAtFirstChar(s: string, c: char, a: string, t: string)
    requires s == a + t && c !in a && (t == [] || t[0] == c)
    ensures t == [] ==> Split(s, [c]) == [a]
    ensures t != [] ==> Split(s, [c]) == [a] + Split(t[1..], [c])
  {
    forall j | 0 <= j < |a|
      ensures !OccursAt(s, [c], j)
    {
      assert s[j..j + 1][0] == s[j] == a[j];
    }
    if t == [] {
      assert s == a;
      ContainsChar(s, c);
      SplitOfFree(s, [c]);
    } else {
      assert s[|a|..|a| + 1] == [c];
      SplitAtLeftmost(s, [c], |a|);
      assert s[..|a|] == a && s[|a| + 1..] == t[1..];
    }
  }

  /** The domain is the text between the first `@` and the next `@` (or the
      end): for every user name `a@d` followed by nothing or by another `@`,
      with no `@` in `a` or `d`, the domain is `d`. */
  lemma DomainIsSecondPiece(a: string, d: string, rest: string)
    requires '@' !in a && '@' !in d && (rest == [] || rest[0] == '@')
    ensures MessageIdDomain(a + "@" + d + rest) == d
  {
    var u := d + rest;
    var t := "@" + u;
    var s := a + t;
    assert a + "@" + d + rest == s;
    assert t[1..] == u && s[|a|] == '@';
    SplitAtFirstChar(s, '@', a, t);
    SplitAtFirstChar(u, '@', d, rest);
    DomainOfUser(s);
  }

  /** With an `@` present, the domain is the second `@`-piece. */
  lemma DomainOfUser(username: string)
    requires '@' in username
    ensures |Split(username, "@")| >= 2 && MessageIdDomain(username) == Split(username, "@")[1]
  {
    ContainsChar(username, '@');
    SplitOfContained(username, "@");
  }

  // ---------------------------------------------------------------------
  // Text alternative: re.sub('<[^<]+>', '', html).strip()

  /** The index of the first `<` at or after `i`, or `|s|` when there is none. */
  function NextOpen(s: string, i: nat): (j: nat)
    requires i <= |s|
    ensures i <= j <= |s|
    ensures j < |s| ==> s[j] == '<'
    ensures forall k :: i <= k < j ==> s[k] != '<'
    decreases |s| - i
  {
    if i == |s| || s[i] == '<' then i else NextOpen(s, i + 1)
  }

  /** The largest index `k` with `lo <= k < hi` and `s[k] == '>'`, if any. */
  function LastClose(s: string, lo: nat, hi: nat): (r: Option<nat>)
    requires hi <= |s|
    ensures r.Some? ==> lo <= r.value < hi && s[r.value] == '>'
    ensures r.Some? ==> forall k :: r.value < k < hi ==> s[k] != '>'
    ensures r.None? ==> forall k :: lo <= k < hi ==> s[k] != '>'
    decreases hi
  {
    if hi <= lo then None
    else if s[hi - 1] == '>' then Some(hi - 1)
    else LastClose(s, lo, hi - 1)
  }

  /** The end of the match of `<[^<]+>` at the start of `s`: `[^<]+` runs
      greedily to the next `<` and gives back characters until a `>` follows
      at least one of them, so the match ends at the last `>` before the next
      `<` that is not the second character. `None` when there is no match. */
  function TagEnd(s: string): (r: Option<nat>)
    requires s != [] && s[0] == '<'
    ensures r.Some? ==> 2 <= r.value < |s| && s[r.value] == '>'
    ensures r.Some? ==> forall k :: 1 <= k < r.value ==> s[k] != '<'
    ensures r.Some? ==> forall k :: r.value < k < NextOpen(s, 1) ==> s[k] != '>'
    ensures r.None? ==> forall k :: 2 <= k < NextOpen(s, 1) ==> s[k] != '>'
  {
    LastClose(s, 2, NextOpen(s, 1))
  }

  /** `re.sub('<[^<]+>', '', s)`: matches are taken from left to right and
      removed; text outside them is kept. */
  function StripTags(s: string): (r: string)
    ensures |r| <= |s|
    decreases |s|
  {
    if s == [] then []
    else if s[0] != '<' then [s[0]] + StripTags(s[1..])
    else match TagEnd(s)
      case Some(k) => StripTags(s[k + 1..])
      case None => [s[0]] + StripTags(s[1..])
  }

  /** Text with no `<`, or with no `>`, holds no tag and is kept whole. */
  lemma {:induction false} StripTagsKeepsTagFree(s: string)
    requires '<' !in s || '>' !in s
    ensures StripTags(s) == s
    decreases |s|
  {
    if s != [] {
      assert '<' !in s[1..] || '>' !in s[1..];
      if s[0] == '<' {
        assert TagEnd(s).None?;
      }
      StripTagsKeepsTagFree(s[1..]);
    }
  }

  /** Text before the first `<` is kept as it is. */
  lemma {:induction false} StripTagsKeepsPrefix(a: string, b: string)
    requires '<' !in a
    ensures StripTags(a + b) == a + StripTags(b)
    decreases |a|
  {
    if a != [] {
      assert a[0] != '<';
      assert a == [a[0]] + a[1..];
      var s := a + b;
      assert s[0] == a[0] && s[1..] == a[1..] + b;
      assert StripTags(s) == [s[0]] + StripTags(s[1..]);
      StripTagsKeepsPrefix(a[1..], b);
    } else {
      assert a + b == b;
    }
  }

  /** Past a stretch with no `<`, the search for the next `<` ends where it
      would from the end of the stretch. */
  lemma {:induction false} NextOpenSkips(s: string, i: nat, j: nat)
    requires i <= j <= |s|
    requires forall k :: i <= k < j ==> s[k] != '<'
    ensures NextOpen(s, i) == NextOpen(s, j)
    decreases j - i
  {
    if i < j {
      NextOpenSkips(s, i + 1, j);
    }
  }

  /** The search for `<` in `a + b` from inside `b` is the search in `b`,
      shifted by `|a|`. */
  lemma {:induction false} NextOpenShifts(a: string, b: string, i: nat)
    requires i <= |b|
    ensures NextOpen(a + b, |a| + i) == |a| + NextOpen(b, i)
    decreases |b| - i
  {
    if i < |b| {
      assert (a + b)[|a| + i] == b[i];
      if b[i] != '<' {
        NextOpenShifts(a, b, i + 1);
      }
    }
  }

  /** A tag `<t>` is removed whole, whatever `>` it holds inside, when the
      text after it has no `>` before its next `<`: `t` is not empty and
      holds no `<`. So `<p>Hi</p>` leaves `Hi`. */
  lemma StripTagsRemovesTag(t: string, b: string)
    requires t != [] && '<' !in t
    requires forall k :: 0 <= k < NextOpen(b, 0) ==> b[k] != '>'
    ensures StripTags("<" + t + ">" + b) == StripTags(b)
  {
    var s := "<" + t + ">" + b;
    var close := |t| + 1;
    assert s[close] == '>';
    assert forall k :: 1 <= k < close ==> s[k] == t[k - 1];
    assert forall k :: 1 <= k <= close ==> s[k] != '<';
    NextOpenSkips(s, 1, close + 1);
    assert s == ("<" + t + ">") + b;
    NextOpenShifts("<" + t + ">", b, 0);
    assert NextOpen(s, 1) == close + 1 + NextOpen(b, 0);
    assert forall k :: close < k < NextOpen(s, 1) ==> s[k] == b[k - close - 1];
    assert TagEnd(s) == Some(close);
    assert s[close + 1..] == b;
  }

  /** The usual case: `<p>Hi</p>` leaves `Hi`. */
  lemma StripTagsParagraph()
    ensures StripTags("<p>Hi</p>") == "Hi"
  {
    OpeningTagRemoved();
    assert "Hi</p>" == "Hi" + "</p>";
    StripTagsKeepsPrefix("Hi", "</p>");
    ClosingTagRemoved();
  }

  /** The opening `<p>` goes: no `>` follows it before the next `<`. */
  lemma OpeningTagRemoved()
    ensures StripTags("<p>Hi</p>") == StripTags("Hi</p>")
  {
    assert "<p>Hi</p>" == "<" + "p" + ">" + "Hi</p>";
    assert NextOpen("Hi</p>", 0) == 2;
    StripTagsRemovesTag("p", "Hi</p>");
  }

  /** A lone closing tag `</p>` goes entirely. */
  lemma ClosingTagRemoved()
    ensures StripTags("</p>") == []
  {
    StripTagsRemovesTag("/p", []);
    assert "<" + "/p" + ">" + [] == "</p>";
  }

  /** An opening `<` with no `>` before the next `<` (or with only the
      character right after it) is kept as text. */
  lemma StripTagsKeepsUnclosed(s: string)
    requires s != [] && s[0] == '<'
    requires forall k :: 2 <= k < |s| && s[k] == '>' ==> exists m :: 1 <= m < k && s[m] == '<'
    ensures StripTags(s) == "<" + StripTags(s[1..])
  {
    var j := NextOpen(s, 1);
  }

  /** The notice used when the HTML has no visible text. */
  const NoTextNotice: string := "Veuillez activer l'affichage HTML pour voir cet email."

  /** The plain-text alternative: the HTML without its tags, stripped of
      surrounding white space, or the notice when nothing is left. */
  function TextFallback(html: string): (r: string)
    ensures r != []
    ensures AllSpace(StripTags(html)) ==> r == NoTextNotice
    ensures !AllSpace(StripTags(html)) ==> r == Strip(StripTags(html))
  {
    var text := Strip(StripTags(html));
    StripEmptyIff(StripTags(html));
    if text == [] then NoTextNotice else text
  }

  // ---------------------------------------------------------------------
  // Python's int() for the port text

  predicate IsDigit(c: char) {
    '0' <= c <= '9'
  }

  /** A literal `int()` accepts after the sign: a digit, then digits each
      optionally preceded by one underscore. */
  predicate DigitRun(d: string) {
    d != [] && IsDigit(d[0]) && DigitRunTail(d[1..])
  }

  predicate DigitRunTail(r: string)
    decreases |r|
  {
    || r == []
    || (IsDigit(r[0]) && DigitRunTail(r[1..]))
    || (|r| >= 2 && r[0] == '_' && IsDigit(r[1]) && DigitRunTail(r[2..]))
  }

  /** A non-empty text of digits only is a digit run. */
  lemma {:induction false} DigitsAreRun(d: string)
    requires forall k :: 0 <= k < |d| ==> IsDigit(d[k])
    ensures DigitRunTail(d)
    ensures d != [] ==> DigitRun(d)
    decreases |d|
  {
    if d != [] {
      DigitsAreRun(d[1..]);
    }
  }

  /** The value of a run of digits, underscores skipped. */
  function DigitsValue(d: string): (n: nat)
    decreases |d|
  {
    if d == [] then 0
    else
      var last := d[|d| - 1];
      if IsDigit(last) then 10 * DigitsValue(d[..|d| - 1]) + (last as int - '0' as int)
      else DigitsValue(d[..|d| - 1])
  }

  /** A digit run, as a value. */
  function Unsigned(b: string): (r: Option<int>)
    ensures r.Some? ==> DigitRun(b) && r.value >= 0
  {
    if DigitRun(b) then Some(DigitsValue(b)) else None
  }

  /** An optional sign followed by a digit run, as a value. */
  function SignedValue(t: string): (r: Option<int>)
    ensures r.Some? ==> t != []
  {
    if t == [] then None
    else if t[0] == '-' then
      match Unsigned(t[1..])
      case Some(v) => Some(-v)
      case None => None
    else if t[0] == '+' then Unsigned(t[1..])
    else Unsigned(t)
  }

  /** `int(s)` in base 10: surrounding white space is ignored, then an
      optional sign and a digit run. `None` stands for the `ValueError`. */
  function ParseInt(s: string): (r: Option<int>)
    ensures r.Some? ==> Strip(s) != []
  {
    SignedValue(Strip(s))
  }

  /** Blank text is not a number. */
  lemma ParseIntRejectsBlank(s: string)
    requires AllSpace(s)
    ensures ParseInt(s).None?
  {
    StripEmptyIff(s);
  }

  /** For text with no white space at either end, `int()` is the signed
      digit-run reading of the text itself. */
  lemma ParseIntOfTrimmed(t: string)
    requires t != [] && !IsSpace(t[0]) && !IsSpace(t[|t| - 1])
    ensures ParseInt(t) == SignedValue(t)
  {
    StripOfTrimmed(t);
  }

  /** The decimal writing of a natural number, as `str(n)` gives it. */
  function Decimal(n: nat): (d: string)
    ensures d != [] && IsDigit(d[0]) && IsDigit(d[|d| - 1])
    ensures forall k :: 0 <= k < |d| ==> IsDigit(d[k])
    decreases n
  {
    var digit := ('0' as int + n % 10) as char;
    if n < 10 then [digit] else Decimal(n / 10) + [digit]
  }

  lemma {:induction false} DecimalValue(n: nat)
    ensures DigitsValue(Decimal(n)) == n
    decreases n
  {
    var d := Decimal(n);
    if n >= 10 {
      DecimalValue(n / 10);
      assert d[..|d| - 1] == Decimal(n / 10);
    } else {
      assert d[..0] == [];
    }
  }

  /** A text without white space at either end is its own `strip()`. */
  lemma StripOfTrimmed(s: string)
    requires s != [] && !IsSpace(s[0]) && !IsSpace(s[|s| - 1])
    ensures Strip(s) == s
  {
  }

  /** A digit run ends with a digit. */
  lemma {:induction false} RunEndsInDigit(r: string)
    requires DigitRunTail(r) && r != []
    ensures IsDigit(r[|r| - 1])
    decreases |r|
  {
    if |r| >= 2 && r[0] == '_' && IsDigit(r[1]) && DigitRunTail(r[2..]) && r[2..] != [] {
      RunEndsInDigit(r[2..]);
    } else if IsDigit(r[0]) && DigitRunTail(r[1..]) && r[1..] != [] {
      RunEndsInDigit(r[1..]);
    }
  }

  /** `int()` reads a digit run as its value. */
  lemma ParseIntDigits(d: string)
    requires DigitRun(d)
    ensures ParseInt(d) == Some(DigitsValue(d) as int)
  {
    if |d| > 1 {
      RunEndsInDigit(d[1..]);
    }
    ParseIntOfTrimmed(d);
  }

  /** A minus sign before a digit run negates its value. */
  lemma SignedValueNegative(d: string)
    requires DigitRun(d)
    ensures SignedValue("-" + d) == Some(-(DigitsValue(d) as int))
  {
    assert ("-" + d)[1..] == d;
  }

  /** `int(str(n))` is `n`: the port parser reads back every decimal number. */
  lemma ParseIntDecimal(n: nat)
    ensures ParseInt(Decimal(n)) == Some(n as int)
  {
    var d := Decimal(n);
    DecimalValue(n);
    DigitsAreRun(d);
    ParseIntDigits(d);
  }

  // ---------------------------------------------------------------------
  // Sending

  /** How the connection is secured: SMTP over SSL from the start, or a plain
      connection upgraded with STARTTLS. */
  datatype Security = ImplicitTls | StartTls

  function SecurityFor(port: int): (s: Security)
    ensures s == ImplicitTls <==> port == 465
  {
    if port == 465 then ImplicitTls else StartTls
  }

  /** The message handed to the server; the date and the random part of the
      Message-ID are not modelled. */
  datatype Message = Message(
    subject: string,
    sender: string,
    recipient: string,
    messageIdDomain: string,
    textPart: string,
    htmlPart: string)

  /** The line boundaries of Python's `str.splitlines`. */
  predicate IsLineBreak(c: char) {
    c in {'\n', '\r', '\U{B}', '\U{C}', '\U{1C}', '\U{1D}', '\U{1E}', '\U{85}', '\U{2028}', '\U{2029}'}
  }

  predicate HasLineBreak(s: string) {
    exists k :: 0 <= k < |s| && IsLineBreak(s[k])
  }

  /** The text without the one line ending `splitlines` drops at its end:
      a final `\r\n`, or a final boundary character. */
  function WithoutFinalBreak(s: string): (t: string)
    ensures |s| - 2 <= |t| <= |s| && t == s[..|t|]
    ensures !HasLineBreak(s) ==> t == s
  {
    if |s| >= 2 && s[|s| - 2] == '\r' && s[|s| - 1] == '\n' then s[..|s| - 2]
    else if |s| >= 1 && IsLineBreak(s[|s| - 1]) then s[..|s| - 1]
    else s
  }

  /** `len(value.splitlines()) > 1`: a line break before the final line
      ending. The default email policy refuses such a header value. */
  predicate MultiLine(s: string) {
    HasLineBreak(WithoutFinalBreak(s))
  }

  /** A header assignment of `send_email` raises: the subject, the sender
      or the recipient spans several lines, or the Message-ID domain holds a
      line break (in `<...@domain>` every break is followed by `>`). */
  predicate HeaderRejected(username: string, toAddress: string, subject: string) {
    MultiLine(subject) || MultiLine(username) || MultiLine(toAddress) || HasLineBreak(MessageIdDomain(username))
  }

  /** `str(e)` for the `ValueError` the default policy raises on such a header. */
  const HeaderErrorMessage: string := "Header values may not contain linefeed or carriage return characters"

  /** The message `send_email` builds before it reads the port, or `None`
      when a header assignment raises. */
  function Compose(username: string, toAddress: string, subject: string, html: string): (m: Option<Message>)
    ensures m.None? <==> HeaderRejected(username, toAddress, subject)
    ensures m.Some? ==> m.value.sender == username && m.value.recipient == toAddress && m.value.subject == subject
    ensures m.Some? ==> m.value.htmlPart == html && m.value.textPart != []
    ensures m.Some? ==> '@' !in m.value.messageIdDomain && !HasLineBreak(m.value.messageIdDomain)
  {
    if HeaderRejected(username, toAddress, subject) then None
    else Some(Message(subject, username, toAddress, MessageIdDomain(username), TextFallback(html), html))
  }

  /** A header that ends in one line ending is accepted; one with a break
      before its last line is refused. */
  lemma MultiLineExamples()
    ensures !MultiLine("a\n") && !MultiLine("a\r\n") && !MultiLine("ab")
    ensures MultiLine("a\nb") && MultiLine("a\n\n")
  {
    assert WithoutFinalBreak("a\n") == "a";
    assert WithoutFinalBreak("a\r\n") == "a";
    assert WithoutFinalBreak("a\nb") == "a\nb" && IsLineBreak("a\nb"[1]);
    assert WithoutFinalBreak("a\n\n") == "a\n" && IsLineBreak("a\n"[1]);
  }

  /** What the SMTP exchange (connect, STARTTLS where used, login, send)
      ends in: the message was sent, the login was refused, or some other
      error was raised with the given text. */
  datatype SmtpOutcome = Delivered | AuthRejected | Raised(text: string)

  const SentMessage: string := "Email envoy\U{E9} avec succ\U{E8}s"
  const AuthMessage: string := "Erreur d'authentification. V\U{E9}rifiez le mot de passe d'application."

  /** `str(e)` for the `ValueError` raised by `int()` on the port text. */
  function InvalidPortMessage(port: string): (m: string)
    ensures OccursAt(m, port, |m| - |port| - 1) && m[|m| - 1] == '\''
  {
    "invalid literal for int() with base 10: '" + port + "'"
  }

  /** `send_email`: build the message, read the port, hand both to the server
      over the connection the port selects, and map the outcome to the
      returned pair. A refused header fails first, before the port is read. */
  function SendEmail(server: string, port: string, username: string, password: string,
                     toAddress: string, subject: string, html: string,
                     transport: (string, int, Security, string, string, Message) -> SmtpOutcome): (r: (bool, string))
    ensures r.0 <==>
      && Compose(username, toAddress, subject, html).Some?
      && ParseInt(port).Some?
      && transport(server, ParseInt(port).value, SecurityFor(ParseInt(port).value), username, password,
                   Compose(username, toAddress, subject, html).value) == Delivered
    ensures r.0 ==> r.1 == SentMessage
    ensures HeaderRejected(username, toAddress, subject) ==> r == (false, HeaderErrorMessage)
    ensures !HeaderRejected(username, toAddress, subject) && ParseInt(port).None? ==>
      r == (false, InvalidPortMessage(port))
    ensures !HeaderRejected(username, toAddress, subject) && ParseInt(port).Some? ==>
      match transport(server, ParseInt(port).value, SecurityFor(ParseInt(port).value), username, password,
                      Compose(username, toAddress, subject, html).value)
      case Delivered => r == (true, SentMessage)
      case AuthRejected => r == (false, AuthMessage)
      case Raised(text) => r == (false, text)
  {
    match Compose(username, toAddress, subject, html)
    case None => (false, HeaderErrorMessage)
    case Some(msg) =>
      match ParseInt(port)
      case None => (false, InvalidPortMessage(port))
      case Some(p) =>
        match transport(server, p, SecurityFor(p), username, password, msg)
        case Delivered => (true, SentMessage)
        case AuthRejected => (false, AuthMessage)
        case Raised(text) => (false, text)
  }

  /** A subject spanning two lines fails before any connection, whatever the
      port and the server would do. */
  lemma MultiLineSubjectFails(server: string, port: string, username: string, password: string,
                              toAddress: string, html: string,
                              transport: (string, int, Security, string, string, Message) -> SmtpOutcome)
    ensures SendEmail(server, port, username, password, toAddress, "a\nb", html, transport) == (false, HeaderErrorMessage)
  {
    MultiLineExamples();
  }

  /** A successful send always went through the server with the port's value
      and the TLS mode that port selects: 465 means implicit TLS. */
  lemma SuccessUsedPortSecurity(server: string, n: nat, username: string, password: string,
                                toAddress: string, subject: string, html: string,
                                transport: (string, int, Security, string, string, Message) -> SmtpOutcome)
    requires SendEmail(server, Decimal(n), username, password, toAddress, subject, html, transport).0
    ensures Compose(username, toAddress, subject, html).Some?
    ensures transport(server, n, if n == 465 then ImplicitTls else StartTls, username, password,
                      Compose(username, toAddress, subject, html).value) == Delivered
  {
    ParseIntDecimal(n);
  }
}
