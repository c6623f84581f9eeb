/**
 * The string helpers shared by the mail commands: the account/mailbox
 * context, the raw-header parser, the address fallback and the subject
 * normaliser used for thread grouping (src/my_cli/util/mail_helpers.py).
 */
module MailHelpers {
  import opened Wrappers
  import opened Text

  // ---------------------------------------------------------------------
  // resolve_message_context: account required, mailbox defaults to INBOX
  // ---------------------------------------------------------------------

  /** The configured default mailbox name. */
  const DefaultMailbox: string := "INBOX"

  /** The message printed when no account can be resolved. */
  const AccountRequired: string := "Account required. Use -a ACCOUNT."

  datatype MessageContext = MessageContext(
    account: string, mailbox: string, accountEscaped: string, mailboxEscaped: string)

  /** `getattr(args, "mailbox", None) or DEFAULT_MAILBOX`: a missing or empty mailbox is INBOX. */
  function MailboxOrDefault(mailbox: Option<string>): (r: string)
    ensures r != ""
    ensures mailbox.Some? && mailbox.value != "" ==> r == mailbox.value
    ensures mailbox == None || mailbox == Some("") ==> r == DefaultMailbox
  {
    if mailbox.Some? && mailbox.value != "" then mailbox.value else DefaultMailbox
  }

  /**
   * The account comes from the account resolver (which consults the
   * configuration when no account is given) and must be non-empty; the
   * resolver and the script escaping are parameters, since their modules
   * are not part of this model.
   */
  function ResolveMessageContext(
    resolveAccount: Option<string> -> Option<string>, escape: string -> string,
    account: Option<string>, mailbox: Option<string>): (r: Result<MessageContext>)
    ensures r.Err? <==> resolveAccount(account) == None || resolveAccount(account) == Some("")
    ensures r.Err? ==> r.error == AccountRequired
    ensures r.Ok? ==> r.value.account == resolveAccount(account).value && r.value.account != ""
    ensures r.Ok? ==> r.value.mailbox == MailboxOrDefault(mailbox)
    ensures r.Ok? ==> (r.value.accountEscaped == escape(r.value.account)
                       && r.value.mailboxEscaped == escape(r.value.mailbox))
  {
    var acct := resolveAccount(account);
    if acct == None || acct == Some("") then
      Err(AccountRequired)
    else
      var mb := MailboxOrDefault(mailbox);
      Ok(MessageContext(acct.value, mb, escape(acct.value), escape(mb)))
  }

  // ---------------------------------------------------------------------
  // parse_email_headers
  // ---------------------------------------------------------------------

  /** A header's value: a plain string when the key was seen once, a list otherwise. */
  datatype HeaderValue = Single(value: string) | Multi(values: seq<string>)

  /** The values of a header in the order they were seen. */
  function Values(v: HeaderValue): seq<string> {
    match v
    case Single(x) => [x]
    case Multi(xs) => xs
  }

  /** The parsed dictionary: its entries and its (insertion) key order. */
  datatype Headers = Headers(fields: map<string, HeaderValue>, order: seq<string>)

  /** The parser's state between lines: the dictionary and `current_key`. */
  datatype ParseState = ParseState(headers: Headers, current: Option<string>)

  /** A list value always holds at least two values; the current key is in the dictionary. */
  predicate WellFormed(st: ParseState) {
    (forall k :: k in st.headers.fields && st.headers.fields[k].Multi? ==>
       |st.headers.fields[k].values| >= 2)
    && (st.current.Some? ==> st.current.value in st.headers.fields)
  }

  /** `line.startswith(" ") or line.startswith("\t")`: the first character is a blank or a tab. */
  predicate StartsBlank(line: string): (r: bool)
    ensures r <==> line != [] && (line[0] == ' ' || line[0] == '\t')
  {
    StartsWith(line, " ") || StartsWith(line, "\t")
  }

  /**
   * A line that starts a header: it holds `": "` and does not start with a
   * blank, so it is not empty and it has head and tail around a separator.
   */
  predicate IsHeaderLine(line: string): (r: bool)
    ensures r <==> !StartsBlank(line) && exists j :: OccursAt(line, ": ", j)
    ensures r ==> line != [] && line[0] != ' ' && line[0] != '\t'
  {
    Contains(line, ": ") && !StartsBlank(line)
  }

  /** What a continuation line contributes: `" " + line.strip()`. */
  function Continuation(line: string): (r: string)
    ensures r != [] && r[0] == ' ' && r[1..] == Strip(line)
  {
    " " + Strip(line)
  }

  /**
   * Records value `val` under `key`: a new key gets a plain string and is
   * appended to the key order; for a known key, `val` becomes its last value
   * and the value is a list from then on.
   */
  function AddValue(h: Headers, key: string, val: string): (r: Headers)
    ensures key in r.fields
    ensures Values(r.fields[key]) == (if key in h.fields then Values(h.fields[key]) else []) + [val]
    ensures r.fields[key].Single? <==> key !in h.fields
    ensures r.fields.Keys == h.fields.Keys + {key}
    ensures forall k :: k in h.fields && k != key ==> r.fields[k] == h.fields[k]
    ensures r.order == if key in h.fields then h.order else h.order + [key]
  {
    if key in h.fields then
      match h.fields[key]
      case Multi(vs) => Headers(h.fields[key := Multi(vs + [val])], h.order)
      case Single(v) => Headers(h.fields[key := Multi([v, val])], h.order)
    else
      Headers(h.fields[key := Single(val)], h.order + [key])
  }

  /**
   * Appends `suffix` to the last value stored under `key` (the string
   * itself, or the last element of the list), keeping its shape.
   */
  function AppendToLast(h: Headers, key: string, suffix: string): (r: Headers)
    requires key in h.fields && |Values(h.fields[key])| >= 1
    ensures var old_ := Values(h.fields[key]); var n := |old_|;
      key in r.fields && Values(r.fields[key]) == old_[..n - 1] + [old_[n - 1] + suffix]
    ensures r.fields[key].Single? == h.fields[key].Single?
    ensures r.fields.Keys == h.fields.Keys && r.order == h.order
    ensures forall k :: k in h.fields && k != key ==> r.fields[k] == h.fields[k]
  {
    match h.fields[key]
    case Multi(vs) =>
      Headers(h.fields[key := Multi(vs[..|vs| - 1] + [vs[|vs| - 1] + suffix])], h.order)
    case Single(v) =>
      Headers(h.fields[key := Single(v + suffix)], h.order)
  }

  /**
   * One line of the parser. A header line sets the current key; a line that
   * starts with a blank continues the current key's last value with a space
   * and the stripped line, unless there is no current key or it is the empty
   * string (which Python treats as false); every other line changes nothing.
   */
  function Step(st: ParseState, line: string): (r: ParseState)
    requires WellFormed(st)
    ensures WellFormed(r)
  {
    if IsHeaderLine(line) then
      var kv := Partition(line, ": ");
      ParseState(AddValue(st.headers, kv.0, kv.1), Some(kv.0))
    else if st.current.Some? && st.current.value != "" && StartsBlank(line) then
      ParseState(AppendToLast(st.headers, st.current.value, Continuation(line)), st.current)
    else
      st
  }

  const EmptyState: ParseState := ParseState(Headers(map[], []), None)

  /** The parser's state after the given lines, one `Step` per line from the left. */
  function Run(lines: seq<string>): (r: ParseState)
    ensures WellFormed(r)
    decreases |lines|
  {
    if lines == [] then EmptyState
    else Step(Run(lines[..|lines| - 1]), lines[|lines| - 1])
  }

  /** What `parse_email_headers(raw)` returns; a list value always holds at least two values. */
  function ParseHeaders(raw: string): (h: Headers)
    ensures forall k :: k in h.fields && h.fields[k].Multi? ==> |h.fields[k].values| >= 2
  {
    Run(Split(raw, '\n')).headers
  }

  /** Running one more line is one more `Step`. */
  lemma RunSnoc(lines: seq<string>, i: nat)
    requires i < |lines|
    ensures Run(lines[..i + 1]) == Step(Run(lines[..i]), lines[i])
  {
    assert lines[..i + 1][..i] == lines[..i];
  }

  /**
   * The body of the loop of `parse_email_headers` for one line: the
   * dictionary entries, the key order and the current key after the line.
   */
  method ParseLine(fields: map<string, HeaderValue>, order: seq<string>, currentKey: Option<string>, line: string)
    returns (fields': map<string, HeaderValue>, order': seq<string>, currentKey': Option<string>)
    requires WellFormed(ParseState(Headers(fields, order), currentKey))
    ensures ParseState(Headers(fields', order'), currentKey')
            == Step(ParseState(Headers(fields, order), currentKey), line)
  {
    fields', order', currentKey' := fields, order, currentKey;
    if Contains(line, ": ") && !StartsWith(line, " ") && !StartsWith(line, "\t") {
      var kv := Partition(line, ": ");
      var key, val := kv.0, kv.1;
      currentKey' := Some(key);
      if key in fields {
        match fields[key]
        case Multi(vs) =>
          fields' := fields[key := Multi(vs + [val])];
        case Single(v) =>
          fields' := fields[key := Multi([v, val])];
      } else {
        fields' := fields[key := Single(val)];
        order' := order + [key];
      }
    } else if currentKey.Some? && currentKey.value != "" && (StartsWith(line, " ") || StartsWith(line, "\t")) {
      var key := currentKey.value;
      var suffix := Continuation(line);
      match fields[key]
      case Multi(vs) =>
        fields' := fields[key := Multi(vs[..|vs| - 1] + [vs[|vs| - 1] + suffix])];
      case Single(v) =>
        fields' := fields[key := Single(v + suffix)];
    }
  }

  /**
   * `parse_email_headers`: one pass over the lines of `raw`, updating the
   * dictionary in place and remembering the current key.
   */
  method ParseEmailHeaders(raw: string) returns (headers: Headers)
    ensures headers == ParseHeaders(raw)
  {
    var lines := Split(raw, '\n');
    var fields: map<string, HeaderValue> := map[];
    var order: seq<string> := [];
    var currentKey: Option<string> := None;
    var i := 0;
    while i < |lines|
      invariant 0 <= i <= |lines|
      invariant Run(lines[..i]) == ParseState(Headers(fields, order), currentKey)
    {
      RunSnoc(lines, i);
      fields, order, currentKey := ParseLine(fields, order, currentKey, lines[i]);
      i := i + 1;
    }
    assert lines[..|lines|] == lines;
    headers := Headers(fields, order);
  }

  // A reference reading of the same text: the header lines as a flat list of
  // logical fields, each with its continuation lines already unfolded.

  datatype Field = Field(name: string, body: string)

  /**
   * The logical header fields of `lines`, in order: a header line opens a
   * field, a continuation line extends the body of the last field (unless
   * there is none or its name is empty), any other line is skipped.
   */
  function Unfold(lines: seq<string>): seq<Field>
    decreases |lines|
  {
    if lines == [] then []
    else
      var fs := Unfold(lines[..|lines| - 1]);
      var line := lines[|lines| - 1];
      if IsHeaderLine(line) then
        var kv := Partition(line, ": ");
        fs + [Field(kv.0, kv.1)]
      else if |fs| > 0 && fs[|fs| - 1].name != "" && StartsBlank(line) then
        var last := fs[|fs| - 1];
        fs[..|fs| - 1] + [Field(last.name, last.body + Continuation(line))]
      else
        fs
  }

  /** The bodies of the fields named `key`, in order. */
  function BodiesOf(fs: seq<Field>, key: string): seq<string>
    decreases |fs|
  {
    if fs == [] then []
    else BodiesOf(fs[..|fs| - 1], key)
         + (if fs[|fs| - 1].name == key then [fs[|fs| - 1].body] else [])
  }

  /** The distinct field names in order of first appearance. */
  function NamesOf(fs: seq<Field>): seq<string>
    decreases |fs|
  {
    if fs == [] then []
    else
      var ns := NamesOf(fs[..|fs| - 1]);
      if fs[|fs| - 1].name in ns then ns else ns + [fs[|fs| - 1].name]
  }

  lemma {:induction false} NamesOfMembers(fs: seq<Field>, key: string)
    ensures key in NamesOf(fs) <==> BodiesOf(fs, key) != []
    decreases |fs|
  {
    if fs != [] {
      NamesOfMembers(fs[..|fs| - 1], key);
    }
  }

  /** The first-appearance order lists every name once. */
  lemma {:induction false} NamesOfDistinct(fs: seq<Field>)
    ensures forall i, j :: 0 <= i < j < |NamesOf(fs)| ==> NamesOf(fs)[i] != NamesOf(fs)[j]
    decreases |fs|
  {
    if fs != [] {
      NamesOfDistinct(fs[..|fs| - 1]);
    }
  }

  /** The parser's state and the unfolded fields describe the same headers. */
  ghost predicate Agrees(st: ParseState, fs: seq<Field>) {
    (forall k :: k in st.headers.fields <==> BodiesOf(fs, k) != [])
    && (forall k :: k in st.headers.fields ==> Values(st.headers.fields[k]) == BodiesOf(fs, k))
    && st.headers.order == NamesOf(fs)
    && st.current == (if fs == [] then None else Some(fs[|fs| - 1].name))
  }

  /** A header line adds one field on both sides. */
  lemma AgreesAfterHeader(st: ParseState, fs: seq<Field>, key: string, val: string)
    requires Agrees(st, fs)
    ensures Agrees(ParseState(AddValue(st.headers, key, val), Some(key)), fs + [Field(key, val)])
  {
    var fs' := fs + [Field(key, val)];
    var h' := AddValue(st.headers, key, val);
    assert fs'[..|fs'| - 1] == fs;
    NamesOfMembers(fs, key);
    forall k ensures BodiesOf(fs', k) == BodiesOf(fs, k) + (if k == key then [val] else []) {
    }
    forall k ensures k in h'.fields <==> BodiesOf(fs', k) != [] {
    }
    forall k | k in h'.fields ensures Values(h'.fields[k]) == BodiesOf(fs', k) {
    }
  }

  /** Replacing the body of the last field changes only the last body of that name. */
  lemma BodiesOfReplaceLast(fs: seq<Field>, body': string, k: string)
    requires fs != []
    ensures var n := |fs|; var fs' := fs[..n - 1] + [Field(fs[n - 1].name, body')];
      BodiesOf(fs', k) == BodiesOf(fs[..n - 1], k) + (if k == fs[n - 1].name then [body'] else [])
      && NamesOf(fs') == NamesOf(fs)
  {
    var n := |fs|;
    var fs' := fs[..n - 1] + [Field(fs[n - 1].name, body')];
    assert fs'[..n - 1] == fs[..n - 1];
  }

  /** After a continuation line the keys still are the names with a body. */
  lemma KeysAfterContinuation(st: ParseState, fs: seq<Field>, suffix: string)
    requires Agrees(st, fs)
    requires fs != []
    ensures var last := fs[|fs| - 1];
      var h' := AppendToLast(st.headers, last.name, suffix);
      var fs' := fs[..|fs| - 1] + [Field(last.name, last.body + suffix)];
      forall k :: k in h'.fields <==> BodiesOf(fs', k) != []
  {
    var last := fs[|fs| - 1];
    var h' := AppendToLast(st.headers, last.name, suffix);
    var fs' := fs[..|fs| - 1] + [Field(last.name, last.body + suffix)];
    forall k ensures k in h'.fields <==> BodiesOf(fs', k) != [] {
      BodiesOfReplaceLast(fs, last.body + suffix, k);
    }
  }

  /** After a continuation line every key's values still are the bodies of its fields. */
  lemma ValuesAfterContinuation(st: ParseState, fs: seq<Field>, suffix: string)
    requires Agrees(st, fs)
    requires fs != []
    ensures var last := fs[|fs| - 1];
      var h' := AppendToLast(st.headers, last.name, suffix);
      var fs' := fs[..|fs| - 1] + [Field(last.name, last.body + suffix)];
      forall k :: k in h'.fields ==> Values(h'.fields[k]) == BodiesOf(fs', k)
  {
    var last := fs[|fs| - 1];
    var pre := fs[..|fs| - 1];
    var h := st.headers;
    var h' := AppendToLast(h, last.name, suffix);
    var fs' := pre + [Field(last.name, last.body + suffix)];
    forall k | k in h'.fields ensures Values(h'.fields[k]) == BodiesOf(fs', k) {
      BodiesOfReplaceLast(fs, last.body + suffix, k);
      if k == last.name {
        assert Values(h.fields[k]) == BodiesOf(pre, k) + [last.body];
      }
    }
  }

  /** A continuation line extends the last body on both sides. */
  lemma AgreesAfterContinuation(st: ParseState, fs: seq<Field>, suffix: string)
    requires Agrees(st, fs)
    requires fs != []
    ensures var last := fs[|fs| - 1];
      var h := st.headers;
      last.name in h.fields && |Values(h.fields[last.name])| >= 1
      && Agrees(ParseState(AppendToLast(h, last.name, suffix), st.current),
                fs[..|fs| - 1] + [Field(last.name, last.body + suffix)])
  {
    var last := fs[|fs| - 1];
    var fs' := fs[..|fs| - 1] + [Field(last.name, last.body + suffix)];
    assert last.name in st.headers.fields;
    var h' := AppendToLast(st.headers, last.name, suffix);
    KeysAfterContinuation(st, fs, suffix);
    ValuesAfterContinuation(st, fs, suffix);
    BodiesOfReplaceLast(fs, last.body + suffix, last.name);
    assert h'.order == NamesOf(fs');
    assert st.current == Some(fs'[|fs'| - 1].name);
  }

  lemma {:induction false} RunAgreesWithUnfold(lines: seq<string>)
    ensures Agrees(Run(lines), Unfold(lines))
    decreases |lines|
  {
    if lines != [] {
      var init := lines[..|lines| - 1];
      var line := lines[|lines| - 1];
      RunAgreesWithUnfold(init);
      var st := Run(init);
      var fs := Unfold(init);
      if IsHeaderLine(line) {
        var kv := Partition(line, ": ");
        AgreesAfterHeader(st, fs, kv.0, kv.1);
        assert Run(lines) == ParseState(AddValue(st.headers, kv.0, kv.1), Some(kv.0));
        assert Unfold(lines) == fs + [Field(kv.0, kv.1)];
      } else if st.current.Some? && st.current.value != "" && StartsBlank(line) {
        var suffix := Continuation(line);
        assert fs != [] && fs[|fs| - 1].name == st.current.value;
        assert !IsHeaderLine(line);
        AgreesAfterContinuation(st, fs, suffix);
        assert Run(lines) == ParseState(AppendToLast(st.headers, st.current.value, suffix), st.current);
        var last := fs[|fs| - 1];
        assert Unfold(lines) == fs[..|fs| - 1] + [Field(last.name, last.body + suffix)];
      } else {
        assert Run(lines) == st;
        assert Unfold(lines) == fs;
      }
    }
  }

  /**
   * What the parser returns, read through the unfolded fields: a key is
   * present exactly when some field has that name; its values are the
   * bodies of those fields in the order met; it is a plain string exactly
   * when there is one such field; and the keys are in first-appearance order.
   */
  lemma ParseHeadersMeaning(raw: string)
    ensures var h := ParseHeaders(raw); var fs := Unfold(Split(raw, '\n'));
      (forall k :: k in h.fields <==> BodiesOf(fs, k) != [])
      && (forall k :: k in h.fields ==> Values(h.fields[k]) == BodiesOf(fs, k))
      && (forall k :: k in h.fields ==> (h.fields[k].Single? <==> |BodiesOf(fs, k)| == 1))
      && h.order == NamesOf(fs)
  {
    var lines := Split(raw, '\n');
    RunAgreesWithUnfold(lines);
    var st := Run(lines);
    assert WellFormed(st);
  }

  // ---------------------------------------------------------------------
  // extract_email
  // ---------------------------------------------------------------------

  /**
   * `extract_email`: the address part of `parseaddr(sender)` when it is
   * non-empty, otherwise `sender` unchanged. The address parser is the
   * standard library's; here it is a parameter returning (name, address).
   */
  function ExtractEmail(parseaddr: string -> (string, string), sender: string): (r: string)
    ensures parseaddr(sender).1 != "" ==> r == parseaddr(sender).1
    ensures parseaddr(sender).1 == "" ==> r == sender
    ensures r == "" ==> sender == ""
  {
    var email := parseaddr(sender).1;
    if email != "" then email else sender
  }

  /**
   * Applying `extract_email` to its own result changes nothing, provided the
   * parser reads a bare address it produced either as that address or as
   * nothing at all.
   */
  lemma ExtractEmailIdempotent(parseaddr: string -> (string, string), sender: string)
    requires var a := parseaddr(sender).1; a != "" ==> parseaddr(a).1 in {a, ""}
    ensures ExtractEmail(parseaddr, ExtractEmail(parseaddr, sender)) == ExtractEmail(parseaddr, sender)
  {
  }

  // ---------------------------------------------------------------------
  // normalize_subject
  // ---------------------------------------------------------------------

  /**
   * The markers of the pattern `^(Re|Fwd|Fw|AW|SV|VS):\s*`, lower-cased, in
   * the order the alternation tries them.
   */
  const Markers: seq<string> := ["re", "fwd", "fw", "aw", "sv", "vs"]

  /**
   * Character `c` matches letter `m` of a marker under `re.IGNORECASE`:
   * either ASCII case, and, for `s`, also U+017F (long s), which Python's
   * case-insensitive matching treats as a case variant of `s`.
   */
  predicate MarkerCharMatches(c: char, m: char) {
    AsciiLower(c) == m || (m == 's' && c == '\U{17F}')
  }

  /** `w` spells marker `m` case-insensitively. */
  predicate Spells(w: string, m: string) {
    |w| == |m| && forall i :: 0 <= i < |w| ==> MarkerCharMatches(w[i], m[i])
  }

  /** `s` starts with marker `m` directly followed by a colon. */
  predicate MarkerAt(s: string, m: string) {
    |m| < |s| && Spells(s[..|m|], m) && s[|m|] == ':'
  }

  /**
   * The marker the pattern matches at the start of `s`, if it matches: the
   * first marker of `Markers` that `s` starts with, followed by a colon.
   */
  function LeadingMarker(s: string): (r: Option<string>)
    ensures r.Some? ==> r.value in Markers && MarkerAt(s, r.value)
    ensures r.None? <==> forall m :: m in Markers ==> !MarkerAt(s, m)
  {
    if MarkerAt(s, "re") then Some("re")
    else if MarkerAt(s, "fwd") then Some("fwd")
    else if MarkerAt(s, "fw") then Some("fw")
    else if MarkerAt(s, "aw") then Some("aw")
    else if MarkerAt(s, "sv") then Some("sv")
    else if MarkerAt(s, "vs") then Some("vs")
    else None
  }

  /**
   * `re.sub(r'^(Re|Fwd|Fw|AW|SV|VS):\s*', '', s, flags=re.IGNORECASE)`: the
   * marker, its colon and the whitespace run after it are removed.
   */
  function StripMarker(s: string): (r: string)
    ensures |r| <= |s|
    ensures LeadingMarker(s).None? ==> r == s
    ensures LeadingMarker(s).Some? ==> |r| < |s|
  {
    match LeadingMarker(s)
    case None => s
    case Some(m) => LStrip(s[|m| + 1..])
  }

  /**
   * One pass of the normalising loop: remove one leading marker, then strip.
   * A pass never lengthens the subject, and a pass that changes it makes it
   * strictly shorter: the loop's termination measure.
   */
  function Pass(s: string): (r: string)
    ensures |r| <= |s|
    ensures r != s ==> |r| < |s|
    ensures LeadingMarker(s).Some? ==> |r| < |s|
    ensures Trimmed(r)
  {
    Strip(StripMarker(s))
  }

  /**
   * `normalize_subject`: passes repeated until one changes nothing. The
   * result is a fixed point of a pass.
   */
  function Normalize(s: string): (r: string)
    ensures Pass(r) == r
    ensures |r| <= |s|
    decreases |s|
  {
    var p := Pass(s);
    if p == s then s else Normalize(p)
  }

  /** The `while True` loop of `normalize_subject`, which rebinds the subject until a fixed point. */
  method NormalizeSubject(subject: string) returns (result: string)
    ensures result == Normalize(subject)
    ensures Pass(result) == result
  {
    var s := subject;
    while true
      invariant Normalize(s) == Normalize(subject)
      decreases |s|
    {
      var normalized := Pass(s);
      if normalized == s {
        break;
      }
      s := normalized;
    }
    result := s;
  }

  /** A normalised subject is trimmed and starts with no marker. */
  lemma NormalizeClean(s: string)
    ensures Trimmed(Normalize(s))
    ensures LeadingMarker(Normalize(s)).None?
  {
  }

  /** Normalising twice is normalising once. */
  lemma NormalizeIdempotent(s: string)
    ensures Normalize(Normalize(s)) == Normalize(s)
  {
  }

  /** A subject is left unchanged exactly when it is trimmed and starts with no marker. */
  lemma NormalizeUnchangedIff(s: string)
    ensures Normalize(s) == s <==> Trimmed(s) && LeadingMarker(s).None?
  {
    if Trimmed(s) && LeadingMarker(s).None? {
      assert Pass(s) == s;
    }
  }

  /** Two marker letters that the same character matches are the same letter. */
  lemma MarkerCharUnique(c: char, a: char, b: char)
    requires 'a' <= a <= 'z' && 'a' <= b <= 'z'
    requires MarkerCharMatches(c, a) && MarkerCharMatches(c, b)
    ensures a == b
  {
  }

  /** Every marker is two or three lower-case ASCII letters. */
  lemma MarkerLetters(m: string)
    requires m in Markers
    ensures 2 <= |m| <= 3 && forall i :: 0 <= i < |m| ==> 'a' <= m[i] <= 'z'
  {
    assert m == "re" || m == "fwd" || m == "fw" || m == "aw" || m == "sv" || m == "vs";
  }

  /** A character that matches a marker letter is not whitespace. */
  lemma MarkerCharNotSpace(c: char, m: char)
    requires 'a' <= m <= 'z' && MarkerCharMatches(c, m)
    ensures !IsSpace(c)
  {
  }

  /** At most one marker matches at the start of a subject. */
  lemma MarkerAtUnique(s: string, m: string, m': string)
    requires m in Markers && m' in Markers
    requires MarkerAt(s, m) && MarkerAt(s, m')
    ensures m == m'
  {
    MarkerLetters(m);
    MarkerLetters(m');
    if |m| == |m'| {
      forall i | 0 <= i < |m| ensures m[i] == m'[i] {
        MarkerCharUnique(s[i], m[i], m'[i]);
      }
    }
  }

  /**
   * When the subject starts with a spelling `w` of marker `m` and a colon,
   * the pattern matches exactly that marker.
   */
  lemma LeadingMarkerOfSpelling(w: string, m: string, x: string)
    requires m in Markers && Spells(w, m)
    ensures LeadingMarker(w + ":" + x) == Some(m)
  {
    var s := w + ":" + x;
    assert s[..|w|] == w;
    assert s[|w|] == ':';
    assert MarkerAt(s, m);
    MarkerAtUnique(s, m, LeadingMarker(s).value);
  }

  /** A pass removes one leading marker with its colon and any whitespace after it, then strips. */
  lemma PassRemovesMarker(w: string, m: string, x: string)
    requires m in Markers && Spells(w, m)
    ensures Pass(w + ":" + x) == Strip(x)
  {
    var s := w + ":" + x;
    LeadingMarkerOfSpelling(w, m, x);
    assert s[|w| + 1..] == x;
    var l := LStrip(x);
    assert LStrip(l) == l;
  }

  /** So normalising a marked subject is normalising the stripped rest. */
  lemma NormalizeRemovesMarker(w: string, m: string, x: string)
    requires m in Markers && Spells(w, m)
    ensures Normalize(w + ":" + x) == Normalize(Strip(x))
  {
    PassRemovesMarker(w, m, x);
  }

  /** One nested prefix: a spelling of a marker, a colon and some whitespace. */
  datatype Prefix = Prefix(word: string, marker: string, spaces: string)

  predicate ValidPrefix(p: Prefix) {
    p.marker in Markers && Spells(p.word, p.marker) && AllSpace(p.spaces)
  }

  function PrefixText(p: Prefix): string {
    p.word + ":" + p.spaces
  }

  /** Subject `x` behind the prefixes `ps`, outermost first. */
  function Prefixed(ps: seq<Prefix>, x: string): string
    decreases |ps|
  {
    if ps == [] then x else PrefixText(ps[0]) + Prefixed(ps[1..], x)
  }

  /** A pass removes a whole prefix and strips what follows it. */
  lemma PassRemovesPrefix(p: Prefix, y: string)
    requires ValidPrefix(p)
    ensures Pass(PrefixText(p) + y) == Strip(p.spaces + y)
    ensures |Strip(p.spaces + y)| < |PrefixText(p) + y|
  {
    assert PrefixText(p) + y == p.word + ":" + (p.spaces + y);
    PassRemovesMarker(p.word, p.marker, p.spaces + y);
  }

  /** A prefix starts with a marker letter, so prefixing keeps a string trimmed. */
  lemma PrefixedTrimmed(p: Prefix, y: string)
    requires ValidPrefix(p)
    requires y != [] && Trimmed(y)
    ensures Trimmed(PrefixText(p) + y)
  {
    var s := PrefixText(p) + y;
    MarkerLetters(p.marker);
    assert s[0] == p.word[0];
    MarkerCharNotSpace(p.word[0], p.marker[0]);
    assert s[|s| - 1] == y[|y| - 1];
  }

  /** Normalising a prefixed trimmed subject is normalising the subject. */
  lemma NormalizeRemovesPrefix(p: Prefix, y: string)
    requires ValidPrefix(p)
    requires Trimmed(y)
    ensures Normalize(PrefixText(p) + y) == Normalize(y)
  {
    PassRemovesPrefix(p, y);
    StripPadded(p.spaces, y, []);
    assert p.spaces + y + [] == p.spaces + y;
  }

  /** A trimmed, non-empty subject stays trimmed behind any number of prefixes. */
  lemma {:induction false} NestedTrimmed(ps: seq<Prefix>, x: string)
    requires forall i :: 0 <= i < |ps| ==> ValidPrefix(ps[i])
    requires x != [] && Trimmed(x)
    ensures Prefixed(ps, x) != [] && Trimmed(Prefixed(ps, x))
    decreases |ps|
  {
    if ps != [] {
      NestedTrimmed(ps[1..], x);
      PrefixedTrimmed(ps[0], Prefixed(ps[1..], x));
    }
  }

  /**
   * Nested prefixes collapse completely: however many markers precede a
   * trimmed, non-empty subject, normalising gives what normalising the
   * subject alone gives.
   */
  lemma {:induction false} NormalizeNested(ps: seq<Prefix>, x: string)
    requires forall i :: 0 <= i < |ps| ==> ValidPrefix(ps[i])
    requires x != [] && Trimmed(x)
    ensures Normalize(Prefixed(ps, x)) == Normalize(x)
    decreases |ps|
  {
    if ps != [] {
      var rest := Prefixed(ps[1..], x);
      NestedTrimmed(ps[1..], x);
      NormalizeNested(ps[1..], x);
      NormalizeRemovesPrefix(ps[0], rest);
    }
  }

  /** A trimmed subject with no leading marker is its own normal form. */
  lemma NormalizeFixed(s: string)
    requires Trimmed(s) && LeadingMarker(s).None?
    ensures Normalize(s) == s
  {
    StripTrimmed(s);
    assert Pass(s) == s;
  }

  /** A subject that is only a marker, its colon and whitespace normalises to the empty string. */
  lemma NormalizeMarkerOnly(w: string, m: string, spaces: string)
    requires m in Markers && Spells(w, m) && AllSpace(spaces)
    ensures Normalize(w + ":" + spaces) == ""
  {
    NormalizeRemovesMarker(w, m, spaces);
    StripPadded(spaces, [], []);
    assert spaces + [] + [] == spaces;
    assert Pass("") == "";
  }

  lemma NormalizeBareReplyExample()
    ensures Normalize("Re: ") == ""
  {
    assert Spells("Re", "re") && AllSpace(" ");
    assert "Re" + ":" + " " == "Re: ";
    NormalizeMarkerOnly("Re", "re", " ");
  }

  // Subjects from the test suite of the source.

  lemma NormalizePlainExample()
    ensures Normalize("Plain Subject") == "Plain Subject"
  {
    assert LeadingMarker("Plain Subject") == None;
    NormalizeFixed("Plain Subject");
  }

  /** Three nested prefixes in front of a trimmed subject collapse completely. */
  lemma NormalizeThreePrefixes(a: Prefix, b: Prefix, c: Prefix, x: string)
    requires ValidPrefix(a) && ValidPrefix(b) && ValidPrefix(c)
    requires x != [] && Trimmed(x)
    ensures Normalize(PrefixText(a) + PrefixText(b) + PrefixText(c) + x) == Normalize(x)
  {
    var ps := [a, b, c];
    assert ps[1..] == [b, c] && ps[2..] == [c] && ps[2..][1..] == [];
    assert Prefixed(ps[2..], x) == PrefixText(c) + x;
    assert Prefixed(ps[1..], x) == PrefixText(b) + (PrefixText(c) + x);
    assert Prefixed(ps, x) == PrefixText(a) + (PrefixText(b) + (PrefixText(c) + x));
    assert PrefixText(a) + (PrefixText(b) + (PrefixText(c) + x))
        == PrefixText(a) + PrefixText(b) + PrefixText(c) + x;
    NormalizeNested(ps, x);
  }

  /** `Re: Re: Fwd: ` in front of any trimmed subject goes away completely. */
  lemma NormalizeNestedExample(x: string)
    requires x != [] && Trimmed(x)
    ensures Normalize("Re: Re: Fwd: " + x) == Normalize(x)
  {
    var re, fwd := Prefix("Re", "re", " "), Prefix("Fwd", "fwd", " ");
    assert ValidPrefix(re) && ValidPrefix(fwd);
    assert PrefixText(re) + PrefixText(re) + PrefixText(fwd) == "Re: Re: Fwd: ";
    NormalizeThreePrefixes(re, re, fwd, x);
  }

  /** Mixed-case markers go away too: `re: RE: fwd: ` in front of any trimmed subject. */
  lemma NormalizeMixedCaseExample(x: string)
    requires x != [] && Trimmed(x)
    ensures Normalize("re: RE: fwd: " + x) == Normalize(x)
  {
    var lo, up, fwd := Prefix("re", "re", " "), Prefix("RE", "re", " "), Prefix("fwd", "fwd", " ");
    assert ValidPrefix(lo) && ValidPrefix(up) && ValidPrefix(fwd);
    assert PrefixText(lo) + PrefixText(up) + PrefixText(fwd) == "re: RE: fwd: ";
    NormalizeThreePrefixes(lo, up, fwd, x);
  }

  /** With a subject that carries no marker itself, the nested prefixes leave exactly that subject. */
  lemma NormalizeNestedPlain(x: string)
    requires x != [] && Trimmed(x) && LeadingMarker(x).None?
    ensures Normalize("Re: Re: Fwd: " + x) == x
    ensures Normalize("re: RE: fwd: " + x) == x
  {
    NormalizeNestedExample(x);
    NormalizeMixedCaseExample(x);
    NormalizeFixed(x);
  }
}
