/** The RFC 9116 file: what the settings validator accepts, what is printed, and a reader that
    takes the file apart again. */
module SecurityTxt {
  import opened Options
  import opened Timestamps

  /** A configured expiry: with a zone it is an instant, without one it is not. */
  datatype Moment = Naive | Zoned(instant: nat)

  datatype Settings = Settings(
    contact: Option<string>, expires: Option<Moment>,
    languages: Option<string>, policy: Option<string>, canonical: Option<string>)

  // ---- The validator ----

  datatype Problem =
    | NotOneLine(field: string) | ContactScheme | LinkScheme
    | ExpiresMissing | ExpiresWithoutZone | ExpiresOutOfRange

  /** Assumed of `str.isprintable`: it does not hold of a line feed. */
  ghost predicate LikePython(printable: char -> bool) {
    !printable('\n')
  }

  /** A value that may stand in the file: printable throughout, and not blank. The only white
      space that is printable is the space, so a printable text is blank if it is all spaces. */
  predicate OneLine(v: string, printable: char -> bool) {
    (exists i :: 0 <= i < |v| && v[i] != ' ') && forall i :: 0 <= i < |v| ==> printable(v[i])
  }

  predicate OptionalOneLine(v: Option<string>, printable: char -> bool) {
    v.Some? ==> OneLine(v.value, printable)
  }

  predicate ContactUri(v: string) {
    "https://" <= v || "mailto:" <= v || "tel:" <= v
  }

  predicate OptionalHttps(v: Option<string>) {
    v.Some? ==> "https://" <= v.value
  }

  const HORIZON := 366 * DAY

  predicate ExpiresSoon(m: Option<Moment>, now: int) {
    m.Some? && m.value.Zoned? && now < m.value.instant <= now + HORIZON
  }

  predicate OneLines(s: Settings, printable: char -> bool) {
    && OptionalOneLine(s.contact, printable) && OptionalOneLine(s.policy, printable)
    && OptionalOneLine(s.languages, printable) && OptionalOneLine(s.canonical, printable)
  }

  /** What a configuration must be to start. */
  predicate Acceptable(s: Settings, now: int, printable: char -> bool) {
    && OneLines(s, printable)
    && (s.contact.Some? ==>
          && ContactUri(s.contact.value) && OptionalHttps(s.policy) && OptionalHttps(s.canonical)
          && ExpiresSoon(s.expires, now))
  }

  /** A configured value that is blank, or holds a character that does not print. */
  predicate Bad(v: Option<string>, printable: char -> bool) {
    && v.Some?
    && ((forall i :: 0 <= i < |v.value| ==> v.value[i] == ' ')
        || exists i :: 0 <= i < |v.value| && !printable(v.value[i]))
  }

  predicate StartsWith(v: Option<string>, prefix: string) {
    v.Some? && prefix <= v.value
  }

  /** `_validate_security_txt`: everything wrong with the settings. */
  method Validate(s: Settings, now: int, printable: char -> bool) returns (problems: seq<Problem>)
    ensures problems == [] <==> Acceptable(s, now, printable)
    ensures NotOneLine("contact") in problems <==> Bad(s.contact, printable)
    ensures NotOneLine("policy") in problems <==> Bad(s.policy, printable)
    ensures NotOneLine("preferred_languages") in problems <==> Bad(s.languages, printable)
    ensures NotOneLine("canonical") in problems <==> Bad(s.canonical, printable)
    ensures ContactScheme in problems <==>
              && s.contact.Some?
              && !StartsWith(s.contact, "https://") && !StartsWith(s.contact, "mailto:")
              && !StartsWith(s.contact, "tel:")
    ensures LinkScheme in problems <==>
              && s.contact.Some?
              && ((s.policy.Some? && !StartsWith(s.policy, "https://"))
                  || (s.canonical.Some? && !StartsWith(s.canonical, "https://")))
    ensures ExpiresMissing in problems <==> s.contact.Some? && s.expires.None?
    ensures ExpiresWithoutZone in problems <==> s.contact.Some? && s.expires == Some(Naive)
    ensures ExpiresOutOfRange in problems <==>
              && s.contact.Some? && s.expires.Some? && s.expires.value.Zoned?
              && (s.expires.value.instant <= now || s.expires.value.instant > now + 366 * 86400 * 1000000)
  {
    problems := NotOneLines(s, printable);
    if s.contact.Some? { problems := problems + ContactProblems(s, now); }
  }

  /** The values that are no single line. */
  function NotOneLines(s: Settings, printable: char -> bool): (problems: seq<Problem>)
    ensures problems == [] <==> OneLines(s, printable)
    ensures forall p :: p in problems ==> p.NotOneLine?
    ensures NotOneLine("contact") in problems <==> !OptionalOneLine(s.contact, printable)
    ensures NotOneLine("policy") in problems <==> !OptionalOneLine(s.policy, printable)
    ensures NotOneLine("preferred_languages") in problems <==> !OptionalOneLine(s.languages, printable)
    ensures NotOneLine("canonical") in problems <==> !OptionalOneLine(s.canonical, printable)
  {
    If(!OptionalOneLine(s.contact, printable), NotOneLine("contact"))
    + If(!OptionalOneLine(s.policy, printable), NotOneLine("policy"))
    + If(!OptionalOneLine(s.languages, printable), NotOneLine("preferred_languages"))
    + If(!OptionalOneLine(s.canonical, printable), NotOneLine("canonical"))
  }

  /** What else a configured contact asks for. */
  function ContactProblems(s: Settings, now: int): (problems: seq<Problem>)
    requires s.contact.Some?
    ensures problems == [] <==>
            ContactUri(s.contact.value) && OptionalHttps(s.policy) && OptionalHttps(s.canonical)
            && ExpiresSoon(s.expires, now)
    ensures ContactScheme in problems <==> !ContactUri(s.contact.value)
    ensures LinkScheme in problems <==> !(OptionalHttps(s.policy) && OptionalHttps(s.canonical))
    ensures forall p :: p in problems ==> !p.NotOneLine?
    ensures ExpiresMissing in problems <==> s.expires.None?
    ensures ExpiresWithoutZone in problems <==> s.expires == Some(Naive)
    ensures ExpiresOutOfRange in problems <==> s.expires.Some? && s.expires.value.Zoned? && !ExpiresSoon(s.expires, now)
  {
    If(!ContactUri(s.contact.value), ContactScheme)
    + If(!OptionalHttps(s.policy) || !OptionalHttps(s.canonical), LinkScheme)
    + If(s.expires.None?, ExpiresMissing)
    + If(s.expires == Some(Naive), ExpiresWithoutZone)
    + If(s.expires.Some? && s.expires.value.Zoned? && !(now < s.expires.value.instant <= now + HORIZON),
         ExpiresOutOfRange)
  }

  function If(bad: bool, problem: Problem): seq<Problem> {
    if bad then [problem] else []
  }

  // ---- The printer ----

  type FieldList = seq<(string, string)>

  function Present(name: string, v: Option<string>): FieldList {
    if v.Some? then [(name, v.value)] else []
  }

  /** The fields of the file, in order. */
  function Fields(s: Settings, stamp: string): FieldList
    requires s.contact.Some?
  {
    [("Contact", s.contact.value), ("Expires", stamp)]
    + Present("Preferred-Languages", s.languages) + Present("Policy", s.policy) + Present("Canonical", s.canonical)
  }

  function Line(f: (string, string)): string {
    f.0 + ": " + f.1
  }

  /** Lines, each ended by a line feed. */
  function Unlines(lines: seq<string>): string {
    if lines == [] then "" else lines[0] + "\n" + Unlines(lines[1..])
  }

  function Lines(fields: FieldList): seq<string> {
    seq(|fields|, i requires 0 <= i < |fields| => Line(fields[i]))
  }

  predicate Published(s: Settings) {
    s.contact.Some? && s.expires.Some?
  }

  /** `render_security_txt`. A zone-less expiry never gets here: the validator refuses it. */
  method Render(s: Settings) returns (body: Option<string>)
    requires s.contact.Some? && s.expires.Some? ==> s.expires.value.Zoned? && FourDigitYear(s.expires.value.instant)
    ensures body.Some? <==> Published(s)
    ensures Published(s) ==>
              && Printable(CivilOf(s.expires.value.instant))
              && body == Some(Unlines(Lines(Fields(s, Stamp(CivilOf(s.expires.value.instant))))))
              && "Contact: " + s.contact.value + "\nExpires: " + Stamp(CivilOf(s.expires.value.instant)) + "\n"
                 <= body.value
  {
    if s.contact.None? || s.expires.None? { return None; }
    FourDigitsPrintable(s.expires.value.instant);
    var stamp := Stamp(CivilOf(s.expires.value.instant));
    var lines := ["Contact" + ": " + s.contact.value, "Expires" + ": " + stamp];
    var optional := [("Preferred-Languages", s.languages), ("Policy", s.policy), ("Canonical", s.canonical)];
    ghost var head := [("Contact", s.contact.value), ("Expires", stamp)];
    for i := 0 to |optional|
      invariant lines == Lines(head + Chosen(optional[..i]))
    {
      ChosenNext(head, optional, i);
      if optional[i].1.Some? { lines := lines + [optional[i].0 + ": " + optional[i].1.value]; }
    }
    assert optional[..|optional|] == optional;
    ChosenThree(head, optional[0], optional[1], optional[2]);
    FileStarts(s, stamp);
    return Some(Unlines(lines));
  }

  lemma FileStarts(s: Settings, stamp: string)
    requires s.contact.Some?
    ensures "Contact: " + s.contact.value + "\nExpires: " + stamp + "\n" <= Unlines(Lines(Fields(s, stamp)))
  {
    var lines, c := Lines(Fields(s, stamp)), s.contact.value;
    assert lines[0] == "Contact" + ": " + c && lines[1..][0] == "Expires" + ": " + stamp;
    var rest := Unlines(lines[1..][1..]);
    assert Unlines(lines) == lines[0] + "\n" + (lines[1..][0] + "\n" + rest);
    assert "Contact" + ": " == "Contact: " && "\n" + ("Expires" + ": ") == "\nExpires: ";
    Regrouped("Contact: ", c, "\n", "Expires: ", stamp, rest);
    assert "\n" + "Expires: " == "\nExpires: " && "Expires" + ": " == "Expires: ";
  }

  lemma Regrouped(a: string, b: string, feed: string, c: string, d: string, rest: string)
    ensures a + b + (feed + c) + d + feed <= (a + b) + feed + ((c + d) + feed + rest)
  {
    assert (a + b) + feed + ((c + d) + feed + rest) == (a + b + (feed + c) + d + feed) + rest;
  }

  function Chosen(optional: seq<(string, Option<string>)>): FieldList {
    if optional == [] then []
    else Chosen(optional[..|optional| - 1]) + Present(optional[|optional| - 1].0, optional[|optional| - 1].1)
  }

  lemma ChosenNext(head: FieldList, optional: seq<(string, Option<string>)>, i: nat)
    requires i < |optional|
    ensures Lines(head + Chosen(optional[..i + 1])) ==
            Lines(head + Chosen(optional[..i])) +
            (if optional[i].1.Some? then [optional[i].0 + ": " + optional[i].1.value] else [])
  {
    assert optional[..i + 1][..i] == optional[..i];
  }

  lemma ChosenThree(head: FieldList, a: (string, Option<string>), b: (string, Option<string>),
                    c: (string, Option<string>))
    ensures head + Chosen([a, b, c]) == head + Present(a.0, a.1) + Present(b.0, b.1) + Present(c.0, c.1)
  {
    assert [a, b, c][..2] == [a, b] && [a, b][..1] == [a];
    assert Chosen([a]) == Chosen([]) + Present(a.0, a.1) == Present(a.0, a.1);
    assert Chosen([a, b]) == Chosen([a]) + Present(b.0, b.1);
  }

  // ---- The reader ----

  /** The length of what comes before the first `word`, or None. */
  function Find(word: string, s: string): Option<nat>
    requires word != ""
  {
    if word <= s then Some(0)
    else if s == "" then None
    else
      match Find(word, s[1..])
      case Some(n) => Some(n + 1)
      case None => None
  }

  lemma {:induction false} FindInRange(word: string, s: string)
    requires word != "" && Find(word, s).Some?
    ensures Find(word, s).value + |word| <= |s|
  {
    if !(word <= s) { FindInRange(word, s[1..]); }
  }

  /** The lines of a file; None if its last line is not ended. */
  function SplitLines(body: string): Option<seq<string>>
    decreases |body|
  {
    if body == "" then Some([])
    else
      match Find("\n", body)
      case None => None
      case Some(n) =>
        FindInRange("\n", body);
        match SplitLines(body[n + 1..])
        case None => None
        case Some(rest) => Some([body[..n]] + rest)
  }

  /** A line taken apart at its first ": ". */
  function SplitField(line: string): Option<(string, string)> {
    match Find(": ", line)
    case None => None
    case Some(n) => FindInRange(": ", line); Some((line[..n], line[n + 2..]))
  }

  function SplitFields(lines: seq<string>): Option<FieldList> {
    if lines == [] then Some([])
    else
      var f, rest := SplitField(lines[0]), SplitFields(lines[1..]);
      if f.Some? && rest.Some? then Some([f.value] + rest.value) else None
  }

  function Parse(body: string): Option<FieldList> {
    var lines := SplitLines(body);
    if lines.Some? then SplitFields(lines.value) else None
  }

  // ---- Round trip ----

  /** A name that can open a line: it holds no colon and no line feed. */
  predicate FieldName(name: string) {
    ':' !in name && '\n' !in name
  }

  predicate FieldOk(f: (string, string)) {
    FieldName(f.0) && '\n' !in f.1
  }

  lemma {:induction false} FindFirst(word: string, before: string, after: string)
    requires word != "" && word[0] !in before
    ensures Find(word, before + word + after) == Some(|before|)
  {
    var s := before + word + after;
    if before == "" {
      assert s == word + after;
    } else {
      assert s[0] == before[0] && !(word <= s);
      assert s[1..] == before[1..] + word + after;
      FindFirst(word, before[1..], after);
    }
  }

  lemma {:induction false} LinesSplit(lines: seq<string>)
    requires forall i :: 0 <= i < |lines| ==> '\n' !in lines[i]
    ensures SplitLines(Unlines(lines)) == Some(lines)
  {
    if lines != [] {
      var body, rest := Unlines(lines), Unlines(lines[1..]);
      assert body == lines[0] + "\n" + rest;
      FindFirst("\n", lines[0], rest);
      LinesSplit(lines[1..]);
      assert body[..|lines[0]|] == lines[0] && body[|lines[0]| + 1..] == rest;
      assert lines == [lines[0]] + lines[1..];
    }
  }

  lemma LineSplits(f: (string, string))
    requires FieldName(f.0)
    ensures SplitField(Line(f)) == Some(f)
  {
    FindFirst(": ", f.0, f.1);
    assert Line(f)[..|f.0|] == f.0 && Line(f)[|f.0| + 2..] == f.1;
  }

  lemma {:induction false} FieldsSplit(fields: FieldList)
    requires forall i :: 0 <= i < |fields| ==> FieldName(fields[i].0)
    ensures SplitFields(Lines(fields)) == Some(fields)
  {
    if fields != [] {
      LineSplits(fields[0]);
      FieldsSplit(fields[1..]);
      assert Lines(fields)[1..] == Lines(fields[1..]);
      assert fields == [fields[0]] + fields[1..];
    }
  }

  /** Reading undoes printing for any fields whose names hold no colon and whose texts hold no
      line feed; the values may hold anything else, ": " included. */
  lemma PrintedFieldsParse(fields: FieldList)
    requires forall i :: 0 <= i < |fields| ==> FieldOk(fields[i])
    ensures Parse(Unlines(Lines(fields))) == Some(fields)
  {
    forall i | 0 <= i < |fields| ensures '\n' !in Lines(fields)[i] {
      assert FieldOk(fields[i]);
    }
    LinesSplit(Lines(fields));
    FieldsSplit(fields);
  }

  lemma NamesAreOk(s: Settings, stamp: string)
    requires s.contact.Some? && '\n' !in s.contact.value && '\n' !in stamp
    requires s.languages.Some? ==> '\n' !in s.languages.value
    requires s.policy.Some? ==> '\n' !in s.policy.value
    requires s.canonical.Some? ==> '\n' !in s.canonical.value
    ensures forall i :: 0 <= i < |Fields(s, stamp)| ==> FieldOk(Fields(s, stamp)[i])
  {
    assert FieldName("Contact") && FieldName("Expires") && FieldName("Preferred-Languages")
      && FieldName("Policy") && FieldName("Canonical");
  }

  /** For every configuration the validator accepts, the file is published exactly when there
      is a contact; it reads back as the configured fields, no more and no fewer, in order; and
      its expiry reads back as the configured instant, to the second. The clock and the expiry
      are in the years that print with four digits. */
  lemma PublishedFileReadsBack(s: Settings, now: int, printable: char -> bool)
    requires LikePython(printable) && Acceptable(s, now, printable)
    requires DaysBeforeYear(1000) * DAY <= now
    requires s.expires.Some? && s.expires.value.Zoned? ==> s.expires.value.instant < DaysBeforeYear(10000) * DAY
    ensures Published(s) <==> s.contact.Some?
    ensures Published(s) ==>
              && s.expires.value.Zoned? && FourDigitYear(s.expires.value.instant)
              && Printable(CivilOf(s.expires.value.instant))
              && var stamp := Stamp(CivilOf(s.expires.value.instant));
              && Parse(Unlines(Lines(Fields(s, stamp)))) == Some(
                   [("Contact", s.contact.value), ("Expires", stamp)]
                   + (if s.languages.Some? then [("Preferred-Languages", s.languages.value)] else [])
                   + (if s.policy.Some? then [("Policy", s.policy.value)] else [])
                   + (if s.canonical.Some? then [("Canonical", s.canonical.value)] else []))
              && ReadStamp(stamp) == Some(s.expires.value.instant / 1000000)
  {
    if s.contact.Some? {
      var instant := s.expires.value.instant;
      DaysOf(instant, DaysBeforeYear(1000), DaysBeforeYear(10000));
      FourDigitsPrintable(instant);
      var c := CivilOf(instant);
      CivilDenotes(instant);
      StampReadsBack(c);
      StampIsOneLine(c);
      NamesAreOk(s, Stamp(c));
      PrintedFieldsParse(Fields(s, Stamp(c)));
    }
  }

  /** Without the validator, any value with a line feed in it could add a field of its own. */
  lemma LineFeedAddsAField(name: string, v: string, added: (string, string))
    requires FieldOk((name, v)) && FieldOk(added)
    ensures Parse(Unlines(Lines([(name, v + "\n" + Line(added))]))) == Some([(name, v), added])
  {
    var whole, parts := Lines([(name, v + "\n" + Line(added))]), Lines([(name, v), added]);
    assert whole[0] == Line((name, v)) + "\n" + Line(added) && whole[1..] == [];
    assert parts[0] == Line((name, v)) && parts[1..] == [Line(added)] && parts[1..][1..] == [];
    assert Unlines(whole) == Unlines(parts);
    PrintedFieldsParse([(name, v), added]);
  }

  /** What the check allows is 366 days, a day over a common year: settings it accepts, it accepts
      with the expiry put off to that. */
  lemma AcceptsMoreThanAYear(s: Settings, now: nat, printable: char -> bool)
    requires Acceptable(s, now, printable) && s.contact.Some?
    ensures var late := s.(expires := Some(Zoned(now + 366 * DAY)));
            Acceptable(late, now, printable) && late.expires.value.instant - now > 365 * DAY
  {
  }
}
