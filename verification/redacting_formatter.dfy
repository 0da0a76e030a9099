/** `RedactingFormatter`: a log formatter that passes each record's message
    through `filter_datum` with the redaction `***` and the separator `;`
    before laying out the line. */
module RedactingFormatter {
  import opened FilteredLogger
  import opened RedactionProofs

  /** The parts of a log record the formatter's format string
      `[HOLBERTON] %(name)s %(levelname)s %(asctime)-15s: %(message)s` uses;
      `message` is the record's merged message (`record.getMessage()`).
      `excText` is the rendered exception (`record.exc_text`, filled from
      `exc_info`) and `stackInfo` the rendered stack (`record.stack_info`);
      the empty string stands for an absent one, as both are tested for
      truth. */
  datatype LogRecord = LogRecord(
    loggerName: string,
    levelName: string,
    ascTime: string,
    message: string,
    excText: string,
    stackInfo: string)

  /** `%-Ns`: left-justified in a field at least `width` wide. */
  function PadRight(s: string, width: nat): (r: string)
    decreases width - |s|
    ensures |r| == if |s| < width then width else |s|
    ensures r[..|s|] == s
    ensures forall i :: |s| <= i < |r| ==> r[i] == ' '
  {
    if |s| >= width then s else PadRight(s + " ", width)
  }

  /** The text that precedes the message in a formatted line: the fixed tag,
      the logger name, the level, the time left-justified in a field at least
      15 wide, and `: `, separated by single spaces. */
  function Header(record: LogRecord): (h: string)
    ensures var n := |record.loggerName|;
            var l := |record.levelName|;
            && |h| >= 12 + n + 1 + l + 1 + 15 + 2
            && h[..12] == "[HOLBERTON] "
            && h[12..12 + n] == record.loggerName
            && h[12 + n] == ' '
            && h[13 + n..13 + n + l] == record.levelName
            && h[13 + n + l] == ' '
            && h[14 + n + l..|h| - 2] == PadRight(record.ascTime, 15)
            && h[|h| - 2..] == ": "
  {
    var tag := "[HOLBERTON] ";
    var n := |record.loggerName|;
    var l := |record.levelName|;
    var time := PadRight(record.ascTime, 15);
    var h := tag + record.loggerName + " " + record.levelName + " " + time + ": ";
    assert h[..12] == tag;
    assert h[12..12 + n] == record.loggerName;
    assert h[13 + n..13 + n + l] == record.levelName;
    assert h[14 + n + l..|h| - 2] == time;
    h
  }

  /** The line break `logging.Formatter.format` puts before a non-empty
      exception or stack text: none when the text so far already ends with
      one. */
  function Break(s: string, block: string): (b: string)
    ensures |b| <= 1
    ensures b == "\n" <==> block != "" && (|s| == 0 || s[|s| - 1] != '\n')
  {
    if block == "" || (|s| > 0 && s[|s| - 1] == '\n') then "" else "\n"
  }

  /** Field lists the formatter can be configured with: names that are plain
      regular-expression text and hold neither `=` nor `;`. */
  predicate SafeFields(fields: seq<string>) {
    && (forall f <- fields :: PlainField(f))
    && (forall f <- fields :: SEPARATOR !in f && '=' !in f)
  }

  /** What `logging.Formatter.format` appends to the formatted text `s`: the
      exception text, then the stack text, each starting a line of its own,
      both taken as they are. */
  function Trailer(s: string, excText: string, stackInfo: string): (t: string)
    ensures excText == "" && stackInfo == "" ==> t == ""
    ensures |Break(s, excText)| + |excText| <= |t|
    ensures t[..|Break(s, excText)| + |excText|] == Break(s, excText) + excText
    ensures var shown := s + t[..|Break(s, excText)| + |excText|];
            t[|Break(s, excText)| + |excText|..] == Break(shown, stackInfo) + stackInfo
  {
    var exc := Break(s, excText) + excText;
    var t := exc + Break(s + exc, stackInfo) + stackInfo;
    assert t[..|exc|] == exc;
    assert t[|exc|..] == Break(s + exc, stackInfo) + stackInfo;
    t
  }

  /** `RedactingFormatter(fields).format(record)`: the header from the format
      string, then the message filtered with the configured fields, then the
      trailer `logging.Formatter.format` appends, which is not redacted. With
      safe fields, every configured field's value in the message part is
      exactly `***`. */
  function Format(fields: seq<string>, record: LogRecord): (line: string)
    requires ValidCall(fields, REDACTION, SEPARATOR)
    ensures |Header(record)| + |FilterDatum(fields, REDACTION, record.message, SEPARATOR)| <= |line|
    ensures var body := |Header(record)| + |FilterDatum(fields, REDACTION, record.message, SEPARATOR)|;
            && line[..|Header(record)|] == Header(record)
            && line[|Header(record)|..body] == FilterDatum(fields, REDACTION, record.message, SEPARATOR)
            && Count(line[|Header(record)|..body], SEPARATOR) == Count(record.message, SEPARATOR)
            && (SafeFields(fields) ==> FullyRedacted(Alternatives(fields), REDACTION, line[|Header(record)|..body], SEPARATOR))
            && line[body..] == Trailer(line[..body], record.excText, record.stackInfo)
    ensures record.excText == "" && record.stackInfo == ""
            ==> line == Header(record) + FilterDatum(fields, REDACTION, record.message, SEPARATOR)
  {
    var header := Header(record);
    var message := FilterDatum(fields, REDACTION, record.message, SEPARATOR);
    assert SafeFields(fields) ==> FullyRedacted(Alternatives(fields), REDACTION, message, SEPARATOR) by {
      if SafeFields(fields) {
        FilterDatumRedactsEveryValue(fields, REDACTION, record.message, SEPARATOR);
      }
    }
    assert Count(message, SEPARATOR) == Count(record.message, SEPARATOR) by {
      FilterDatumKeepsSeparatorCount(fields, REDACTION, record.message, SEPARATOR);
    }
    var body := header + message;
    var line := body + Trailer(body, record.excText, record.stackInfo);
    assert line[..|body|] == body;
    assert line[..|header|] == header;
    assert line[|header|..|body|] == message;
    line
  }

  /** A name made of lower-case ASCII letters. */
  predicate Lowercase(f: string) {
    forall i :: 0 <= i < |f| ==> 'a' <= f[i] <= 'z'
  }

  lemma LowercaseIsSafe(f: string)
    requires Lowercase(f)
    ensures PlainField(f) && SEPARATOR !in f && '=' !in f
  {
  }

  /** The fields `get_logger` configures are safe ones. */
  lemma PiiFieldsAreSafe()
    ensures PII_FIELDS == ["name", "email", "phone", "ssn", "password"]
    ensures SafeFields(PII_FIELDS)
  {
    forall f <- PII_FIELDS ensures PlainField(f) && SEPARATOR !in f && '=' !in f {
      assert Lowercase(f);
      LowercaseIsSafe(f);
    }
  }

  /** A line formatted with the default PII fields holds, after its header, the
      message with every `name=`, `email=`, `phone=`, `ssn=` and `password=`
      (wherever they start) followed by exactly `***`. */
  lemma PiiValuesNeverLogged(record: LogRecord)
    ensures SafeFields(PII_FIELDS)
    ensures var line := Format(PII_FIELDS, record);
            var end := |Header(record)| + |FilterDatum(PII_FIELDS, REDACTION, record.message, SEPARATOR)|;
            && end <= |line|
            && FullyRedacted(PII_FIELDS, REDACTION, line[|Header(record)|..end], SEPARATOR)
  {
    assert SafeFields(PII_FIELDS) && |PII_FIELDS| > 0 by {
      PiiFieldsAreSafe();
    }
    FormatRedactsFields(PII_FIELDS, record);
  }

  /** With a non-empty field list, the fields are the alternatives, so the
      message part of the line redacts every configured field. */
  lemma FormatRedactsFields(fields: seq<string>, record: LogRecord)
    requires SafeFields(fields) && |fields| > 0
    ensures var line := Format(fields, record);
            var start := |Header(record)|;
            var end := start + |FilterDatum(fields, REDACTION, record.message, SEPARATOR)|;
            && end <= |line|
            && FullyRedacted(fields, REDACTION, line[start..end], SEPARATOR)
  {
    assert Alternatives(fields) == fields;
  }
}
