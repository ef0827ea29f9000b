// One crontab line as a job: the line is cut into five schedule fields and an action, each
// field is resolved into the sorted list of values it allows, and the next run is computed
// from those lists.
module CronJobs {
  import opened Results
  import opened PyStr
  import opened FieldParser
  import opened Calendar
  import opened NextRun

  /** The texts of a line and the value lists resolved from them. */
  datatype Parsed = Parsed(minute: string, hour: string, dom: string, month: string, dow: string,
                           action: string,
                           cronMonths: seq<int>, cronMinutes: seq<int>, cronHours: seq<int>,
                           cronDom: seq<int>, cronDow: seq<int>)

  /** `filter(None, raw.split(' '))`: the words of the line. */
  function Tokens(raw: string): seq<string> {
    NonEmpty(Split(raw, ' '))
  }

  /** parse(): tokens 0 to 4 are minute, hour, day of month, month and day of week, the rest
      joined by single spaces and stripped is the action; the fields are resolved in the
      order month, minute, hour, day of month, day of week, and the first failure is the
      outcome. */
  function ParseLine(raw: string): Result<Parsed, ParseError> {
    var fields := Tokens(raw);
    if |fields| < 5 then Err(TooFewFields) else ParseFields(fields)
  }

  /** The five fields resolved in the source's order; the first failure is the outcome. */
  function ParseFields(fields: seq<string>): Result<Parsed, ParseError>
    requires |fields| >= 5
  {
    var months := Resolve(fields[3], MinMonth, MaxMonth);
    var minutes := Resolve(fields[0], MinMinute, MaxMinute);
    var hours := Resolve(fields[1], MinHour, MaxHour);
    var doms := Resolve(fields[2], MinDom, MaxDom);
    var dows := Resolve(fields[4], MinDow, MaxDow);
    if months.Err? then Err(months.error)
    else if minutes.Err? then Err(minutes.error)
    else if hours.Err? then Err(hours.error)
    else if doms.Err? then Err(doms.error)
    else if dows.Err? then Err(dows.error)
    else Ok(Parsed(fields[0], fields[1], fields[2], fields[3], fields[4], Strip(Join(fields[5..], ' ')),
                   months.value, minutes.value, hours.value, doms.value, dows.value))
  }

  /** A line's fields parse exactly when each of the five resolves, into the texts and the
      lists resolved from them. */
  lemma ParseFieldsFacts(t: seq<string>)
    requires |t| >= 5
    ensures ParseFields(t).Ok? <==>
      (Resolve(t[3], MinMonth, MaxMonth).Ok? && Resolve(t[0], MinMinute, MaxMinute).Ok?
       && Resolve(t[1], MinHour, MaxHour).Ok? && Resolve(t[2], MinDom, MaxDom).Ok?
       && Resolve(t[4], MinDow, MaxDow).Ok?)
    ensures ParseFields(t).Ok? ==> ParseFields(t).value == Parsed(t[0], t[1], t[2], t[3], t[4],
      Strip(Join(t[5..], ' ')), Resolve(t[3], MinMonth, MaxMonth).value,
      Resolve(t[0], MinMinute, MaxMinute).value, Resolve(t[1], MinHour, MaxHour).value,
      Resolve(t[2], MinDom, MaxDom).value, Resolve(t[4], MinDow, MaxDow).value)
  {
  }

  /** What next_run reads from a parsed line. */
  function ScheduleOf(p: Parsed): Schedule {
    Schedule(p.cronMinutes, p.cronHours, p.cronDom, p.cronMonths, p.cronDow, p.dom, p.dow)
  }

  /** The body of parse(): split the line, take the five texts and the action, then resolve
      the fields in the order month, minute, hour, day of month, day of week. */
  method ParseText(raw: string) returns (p: Parsed)
    requires ParseLine(raw).Ok?
    ensures ParseLine(raw) == Ok(p)
  {
    var fields := Tokens(raw);
    assert ParseLine(raw) == ParseFields(fields);
    ParseFieldsFacts(fields);
    var months := StartParse(fields[3], MinMonth, MaxMonth);
    var minutes := StartParse(fields[0], MinMinute, MaxMinute);
    var hours := StartParse(fields[1], MinHour, MaxHour);
    var doms := StartParse(fields[2], MinDom, MaxDom);
    var dows := StartParse(fields[4], MinDow, MaxDow);
    p := Parsed(fields[0], fields[1], fields[2], fields[3], fields[4], Strip(Join(fields[5..], ' ')),
                months.value, minutes.value, hours.value, doms.value, dows.value);
  }

  class CronJob {
    const rawString: string
    var minute: string
    var hour: string
    var dom: string
    var month: string
    var dow: string
    var action: string
    var cronMonths: seq<int>
    var cronMinutes: seq<int>
    var cronHours: seq<int>
    var cronDom: seq<int>
    var cronDow: seq<int>

    function Fields(): Parsed
      reads this
    {
      Parsed(minute, hour, dom, month, dow, action, cronMonths, cronMinutes, cronHours, cronDom, cronDow)
    }

    /** The fields hold the parse of the stored line. */
    predicate Consistent()
      reads this
    {
      ParseLine(rawString) == Ok(Parsed(minute, hour, dom, month, dow, action,
        cronMonths, cronMinutes, cronHours, cronDom, cronDow))
    }

    /** __init__: store the line, clear the fields, then parse. A line that does not parse
        makes the Python constructor raise; NewCronJob is the entry point that reports it. */
    constructor (rawString: string)
      requires ParseLine(rawString).Ok?
      ensures this.rawString == rawString
      ensures Consistent()
    {
      this.rawString := rawString;
      minute, hour, dom, month, dow, action := "", "", "", "", "", "";
      cronMonths, cronMinutes, cronHours, cronDom, cronDow := [], [], [], [], [];
      new;
      Parse();
    }

    /** parse(): assign the five texts and the action, then resolve the fields in the order
        month, minute, hour, day of month, day of week. */
    method Parse()
      requires ParseLine(rawString).Ok?
      modifies this
      ensures Consistent()
    {
      var p := ParseText(rawString);
      minute, hour, dom, month, dow, action, cronMonths, cronMinutes, cronHours, cronDom, cronDow :=
        p.minute, p.hour, p.dom, p.month, p.dow, p.action,
        p.cronMonths, p.cronMinutes, p.cronHours, p.cronDom, p.cronDow;
    }

    /** next_run(start_dt) for a given reference instant. The instant returned has a listed
        minute, hour and month, no seconds, and is not earlier than the reference cut to the
        minute. */
    method NextRun(start: DateTime) returns (r: Result<DateTime, RunError>)
      requires Consistent()
      requires Calendar.Valid(start)
      ensures r == NextRunOf(ScheduleOf(Fields()), start)
      ensures r.Ok? ==> r.value.minute in cronMinutes && r.value.hour in cronHours
      ensures r.Ok? ==> r.value.month in cronMonths && r.value.second == 0 && r.value.microsecond == 0
      ensures r.Ok? ==> !Before(r.value, Truncate(start))
    {
      var s := ScheduleOf(Fields());
      r := CreateDate(Truncate(start), s);
      if r.Ok? {
        NextRunMatches(s, start);
        ParsedNonNegative(rawString);
        NextRunNotEarlier(s, start);
      }
    }
  }

  /** Build a job from a line, reporting what the Python constructor would raise. */
  method NewCronJob(rawString: string) returns (r: Result<CronJob, ParseError>)
    ensures r.Ok? <==> ParseLine(rawString).Ok?
    ensures r.Err? ==> r.error == ParseLine(rawString).error
    ensures r.Ok? ==> fresh(r.value) && r.value.rawString == rawString && r.value.Consistent()
  {
    var p := ParseLine(rawString);
    if p.Err? {
      return Err(p.error);
    }
    var job := new CronJob(rawString);
    return Ok(job);
  }

  // ------------------------------------------------------------------- lemmas

  /** The words of a line are non-empty, hold no space, and laid end to end give the line
      without its spaces. */
  lemma TokensFacts(raw: string)
    ensures forall i :: 0 <= i < |Tokens(raw)| ==> Tokens(raw)[i] != "" && ' ' !in Tokens(raw)[i]
    ensures Concat(Tokens(raw)) == Without(raw, ' ')
  {
    var parts := Split(raw, ' ');
    forall i | 0 <= i < |Tokens(raw)| ensures ' ' !in Tokens(raw)[i] {
      var j :| 0 <= j < |parts| && parts[j] == Tokens(raw)[i];
    }
    NonEmptySplitKeepsText(raw, ' ');
  }

  /** A line is its first space-free stretch, a space, and the rest: the stretch is a word
      unless it is empty, and the rest gives the remaining words. With TokensWord this fixes
      the words of every line, leading and repeated spaces included. */
  lemma TokensAppend(a: string, rest: string)
    requires ' ' !in a
    ensures Tokens(a + [' '] + rest) == (if a == "" then [] else [a]) + Tokens(rest)
  {
    SplitAppend(a, ' ', rest);
    NonEmptyAppend([a], Split(rest, ' '));
  }

  /** A line without a space is one word, or none when it is empty. */
  lemma TokensWord(w: string)
    requires ' ' !in w
    ensures Tokens(w) == if w == "" then [] else [w]
  {
  }

  /** A leading space gives no word. */
  lemma TokensLeadingSpace(rest: string)
    ensures Tokens([' '] + rest) == Tokens(rest)
  {
    assert [' '] + rest == "" + [' '] + rest;
    TokensAppend("", rest);
  }

  /** Two spaces between words separate them as one space does. */
  lemma TokensDoubleSpace(a: string, rest: string)
    requires a != "" && ' ' !in a
    ensures Tokens(a + [' ', ' '] + rest) == [a] + Tokens(rest)
    ensures Tokens(a + [' ', ' '] + rest) == Tokens(a + [' '] + rest)
  {
    assert a + [' ', ' '] + rest == a + [' '] + ([' '] + rest);
    TokensAppend(a, [' '] + rest);
    TokensLeadingSpace(rest);
    TokensAppend(a, rest);
  }

  /** Words joined by single spaces split back into the same words. */
  lemma TokensOfJoin(words: seq<string>)
    requires |words| >= 1
    requires forall i :: 0 <= i < |words| ==> words[i] != "" && ' ' !in words[i]
    ensures Tokens(Join(words, ' ')) == words
  {
    SplitJoin(words, ' ');
    NonEmptyKeepsAll(words);
  }

  /** A line written as words joined by single spaces is refused when it has fewer than
      five words, and otherwise its fields are those words in order (ParseFieldsFacts then
      says when and into what they parse). */
  lemma ParseLineOfWords(words: seq<string>)
    requires |words| >= 1
    requires forall i :: 0 <= i < |words| ==> words[i] != "" && ' ' !in words[i]
    ensures |words| < 5 ==> ParseLine(Join(words, ' ')) == Err(TooFewFields)
    ensures |words| >= 5 ==> ParseLine(Join(words, ' ')) == ParseFields(words)
  {
    TokensOfJoin(words);
  }

  /** Every list of a parsed line is free of negative values, since every lower bound is. */
  lemma ParsedNonNegative(raw: string)
    requires ParseLine(raw).Ok?
    ensures var p := ParseLine(raw).value;
      NonNegative(p.cronMinutes) && NonNegative(p.cronHours) && NonNegative(p.cronDom)
      && NonNegative(p.cronMonths) && NonNegative(p.cronDow)
  {
    var t := Tokens(raw);
    ResolveNonNegative(t[3], MinMonth, MaxMonth);
    ResolveNonNegative(t[0], MinMinute, MaxMinute);
    ResolveNonNegative(t[1], MinHour, MaxHour);
    ResolveNonNegative(t[2], MinDom, MaxDom);
    ResolveNonNegative(t[4], MinDow, MaxDow);
  }

  /** For any parsed line, a next run is never earlier than the reference cut to the minute. */
  lemma JobNextRunNotEarlier(raw: string, start: DateTime)
    requires ParseLine(raw).Ok?
    requires Calendar.Valid(start)
    requires NextRunOf(ScheduleOf(ParseLine(raw).value), start).Ok?
    ensures !Before(NextRunOf(ScheduleOf(ParseLine(raw).value), start).value, Truncate(start))
  {
    ParsedNonNegative(raw);
    NextRunNotEarlier(ScheduleOf(ParseLine(raw).value), start);
  }

  /** The words of the line "30 2 * * 0 backup --all". */
  function BackupWords(): seq<string> {
    ["30", "2", "*", "*", "0", "backup", "--all"]
  }

  lemma BackupAction()
    ensures Strip(Join(BackupWords()[5..], ' ')) == "backup --all"
  {
    assert BackupWords()[5..] == ["backup", "--all"];
    assert Join(["backup", "--all"], ' ') == "backup --all";
    assert StripLeft("backup --all") == "backup --all";
    assert StripRight("backup --all") == "backup --all";
  }

  lemma BackupWordsPlain()
    ensures forall i :: 0 <= i < |BackupWords()| ==>
      BackupWords()[i] != "" && ' ' !in BackupWords()[i]
  {
  }

  lemma BackupJoin()
    ensures Join(BackupWords(), ' ') == "30 2 * * 0 backup --all"
  {
    var w := BackupWords();
    assert w[6..] == ["--all"];
    JoinCons("backup", w[6..], ' ');
    assert w[5..] == ["backup"] + w[6..];
    JoinCons("0", w[5..], ' ');
    assert w[4..] == ["0"] + w[5..];
    JoinCons("*", w[4..], ' ');
    assert w[3..] == ["*"] + w[4..];
    JoinCons("*", w[3..], ' ');
    assert w[2..] == ["*"] + w[3..];
    JoinCons("2", w[2..], ' ');
    assert w[1..] == ["2"] + w[2..];
    JoinCons("30", w[1..], ' ');
    assert w == ["30"] + w[1..];
  }

  lemma BackupTokens()
    ensures Tokens("30 2 * * 0 backup --all") == BackupWords()
  {
    BackupJoin();
    BackupWordsPlain();
    TokensOfJoin(BackupWords());
  }

  /** The three numeric fields of the line resolve to themselves. */
  lemma BackupNumbers()
    ensures Resolve("30", MinMinute, MaxMinute) == Ok([30])
    ensures Resolve("2", MinHour, MaxHour) == Ok([2])
    ensures Resolve("0", MinDow, MaxDow) == Ok([0])
  {
    assert Decimal(30) == "30" && Decimal(2) == "2" && Decimal(0) == "0";
    ResolveDecimal(30, MinMinute, MaxMinute);
    ResolveDecimal(2, MinHour, MaxHour);
    ResolveDecimal(0, MinDow, MaxDow);
  }

  lemma BackupFields()
    ensures ParseFields(BackupWords()) == Ok(BackupParsed())
  {
    var words := BackupWords();
    BackupAction();
    BackupNumbers();
    ResolveStar(MinDom, MaxDom);
    ResolveStar(MinMonth, MaxMonth);
    ParseFieldsFacts(words);
  }

  /** What "30 2 * * 0 backup --all" parses into. */
  function BackupParsed(): Parsed {
    Parsed("30", "2", "*", "*", "0", "backup --all", Range(1, 13), [30], [2], Range(1, 32), [0])
  }

  /** "30 2 * * 0 backup --all" parses into the schedule 02:30 on Mondays with the action
      "backup --all", and from Friday 1 March 2024 at 10:00:45.5 it next runs on Monday
      4 March at 02:30. */
  lemma BackupLine()
    ensures NextRunOf(ScheduleOf(BackupParsed()), DateTime(2024, 3, 1, 10, 0, 45, 500000))
      == Ok(DateTime(2024, 3, 4, 2, 30, 0, 0))
    ensures ScheduleOf(BackupParsed()) == MondaysAt0230()
    ensures ParseLine("30 2 * * 0 backup --all") == Ok(BackupParsed())
  {
    BackupTokens();
    BackupFields();
    MondaysAt0230Example();
  }
}
