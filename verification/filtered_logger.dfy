/** Log redaction: `filter_datum`.

    `filter_datum(fields, redaction, message, separator)` builds the regular
    expression `(f1|f2|...)=[^separator]*` and replaces every match by
    `\1=redaction`. Python's `re.sub` scans the message left to right and, at
    each position, tries the alternatives of the group in list order; because
    `[^separator]*` can always match (possibly nothing), the first alternative
    `f` for which `f=` starts at the position wins, and the value then runs
    greedily up to, but not including, the next separator or to the end of the
    message (a negated class also matches newlines). A match is never empty
    (it holds at least `=`), so the scan resumes right after it. */
module FilteredLogger {
  import opened Wrappers

  /** The fields the application redacts by default. */
  const PII_FIELDS: seq<string> := ["name", "email", "phone", "ssn", "password"]

  /** The formatter's redaction string and field separator. */
  const REDACTION: string := "***"
  const SEPARATOR: char := ';'

  /** Characters that carry meaning in a regular expression. A field holding one
      of them would change the pattern rather than be matched literally. */
  predicate RegexMeta(c: char) {
    c in ".^$*+?{}[]\\|()"
  }

  /** A field name that the pattern matches literally. */
  predicate PlainField(f: string) {
    forall i :: 0 <= i < |f| ==> !RegexMeta(f[i])
  }

  /** What a call needs for the pattern and the replacement template to mean
      what they say: literal field names, no escape in the redaction (the
      template `\1=redaction` interprets backslashes), and a separator that does
      not escape the closing bracket of `[^separator]`. */
  predicate ValidCall(fields: seq<string>, redaction: string, separator: char) {
    && (forall f <- fields :: PlainField(f))
    && '\\' !in redaction
    && separator != '\\'
  }

  /** The alternatives of the group `(f1|...|fn)`. An empty list joins to the
      empty pattern `()`, which matches the empty field name. */
  function Alternatives(fields: seq<string>): (alts: seq<string>)
    ensures |alts| > 0
    ensures forall f <- alts :: f in fields || f == ""
    ensures |fields| > 0 ==> alts == fields
    ensures |fields| == 0 ==> alts == [""]
  {
    if |fields| == 0 then [""] else fields
  }

  /** `s` starts with `f=`. */
  predicate KeyAt(s: string, f: string) {
    |f| < |s| && s[..|f|] == f && s[|f|] == '='
  }

  /** The alternative the regular expression engine commits to at the start of
      `s`: the first one, in list order, followed by `=`. */
  function MatchField(alts: seq<string>, s: string): (r: Option<string>)
    ensures r.Some? ==> r.value in alts && KeyAt(s, r.value)
    ensures r.None? <==> forall f <- alts :: !KeyAt(s, f)
  {
    if |alts| == 0 then None
    else if KeyAt(s, alts[0]) then Some(alts[0])
    else MatchField(alts[1..], s)
  }

  /** The chosen alternative is the first one, in list order, that matches:
      every alternative listed before it fails at `s`. */
  lemma {:induction false} MatchFieldIsFirst(alts: seq<string>, s: string)
    requires MatchField(alts, s).Some?
    ensures exists i :: 0 <= i < |alts| && alts[i] == MatchField(alts, s).value
                        && forall j :: 0 <= j < i ==> !KeyAt(s, alts[j])
  {
    if !KeyAt(s, alts[0]) {
      MatchFieldIsFirst(alts[1..], s);
      var i :| 0 <= i < |alts[1..]| && alts[1..][i] == MatchField(alts, s).value
               && forall j :: 0 <= j < i ==> !KeyAt(s, alts[1..][j]);
      assert alts[i + 1] == MatchField(alts, s).value;
      forall j | 0 <= j < i + 1 ensures !KeyAt(s, alts[j]) {
        if j > 0 { assert alts[j] == alts[1..][j - 1]; }
      }
    } else {
      assert alts[0] == MatchField(alts, s).value;
    }
  }

  /** Length of what `[^sep]*` swallows from the start of `s`. */
  function ValueLength(s: string, sep: char): (n: nat)
    ensures n <= |s|
    ensures forall i :: 0 <= i < n ==> s[i] != sep
    ensures n < |s| ==> s[n] == sep
  {
    if |s| == 0 || s[0] == sep then 0 else 1 + ValueLength(s[1..], sep)
  }

  /** What is left of `s` after the match `f=value` at its start. */
  function AfterValue(s: string, f: string, sep: char): (rest: string)
    requires KeyAt(s, f)
    ensures |f| + 1 + |rest| <= |s|
    ensures rest == s[|s| - |rest|..]
    ensures rest == [] || rest[0] == sep
    ensures forall i :: |f| + 1 <= i < |s| - |rest| ==> s[i] != sep
  {
    var tail := s[|f| + 1..];
    var n := ValueLength(tail, sep);
    assert forall i :: |f| + 1 <= i < |f| + 1 + n ==> s[i] == tail[i - |f| - 1];
    tail[n..]
  }

  /** `re.sub` of the pattern over `s`, with each match `f=value` replaced by
      `f=redaction` and every other character copied. */
  function Scan(alts: seq<string>, redaction: string, s: string, sep: char): string
    decreases |s|
  {
    if |s| == 0 then []
    else
      match MatchField(alts, s)
      case Some(f) => f + "=" + redaction + Scan(alts, redaction, AfterValue(s, f, sep), sep)
      case None => [s[0]] + Scan(alts, redaction, s[1..], sep)
  }

  /** `filter_datum(fields, redaction, message, separator)`. */
  function FilterDatum(fields: seq<string>, redaction: string, message: string, separator: char): string
    requires ValidCall(fields, redaction, separator)
  {
    Scan(Alternatives(fields), redaction, message, separator)
  }
}
