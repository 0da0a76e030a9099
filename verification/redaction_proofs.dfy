/** Properties of `filter_datum`: what it leaves alone, that it works
    separator-delimited segment by segment, that applying it twice is the same
    as once, and that every configured `field=` left in its output carries
    exactly the redaction. */
module RedactionProofs {
  import opened Wrappers
  import opened FilteredLogger

  /** The side conditions under which redaction cannot manufacture new
      `field=` occurrences: the separator is not `=`, the redaction holds
      neither `=` nor the separator, and no field name holds the separator. */
  predicate Clean(alts: seq<string>, redaction: string, sep: char) {
    && sep != '='
    && '=' !in redaction
    && sep !in redaction
    && (forall f <- alts :: sep !in f)
  }

  /** No configured `field=` starts anywhere in `s`. */
  predicate NoKey(alts: seq<string>, s: string) {
    forall p, f :: 0 <= p < |s| && f in alts ==> !KeyAt(s[p..], f)
  }

  /** Every configured `field=` in `s` is followed by exactly the redaction,
      which runs up to a separator or to the end of `s`. */
  predicate FullyRedacted(alts: seq<string>, redaction: string, s: string, sep: char) {
    forall p, f :: 0 <= p < |s| && f in alts && KeyAt(s[p..], f) ==>
      RedactedAt(redaction, s, p + |f| + 1, sep)
  }

  /** `s` holds exactly `redaction` at `q`, then a separator or the end. */
  predicate RedactedAt(redaction: string, s: string, q: nat, sep: char) {
    && q + |redaction| <= |s|
    && s[q..q + |redaction|] == redaction
    && (q + |redaction| == |s| || s[q + |redaction|] == sep)
  }

  /** Number of occurrences of `c` in `s`. */
  function Count(s: string, c: char): nat {
    if |s| == 0 then 0 else (if s[0] == c then 1 else 0) + Count(s[1..], c)
  }

  lemma {:induction false} CountAppend(a: string, b: string, c: char)
    ensures Count(a + b, c) == Count(a, c) + Count(b, c)
    decreases |a|
  {
    if |a| == 0 {
      assert a + b == b;
    } else {
      assert (a + b)[1..] == a[1..] + b;
      CountAppend(a[1..], b, c);
    }
  }

  lemma {:induction false} CountAbsent(s: string, c: char)
    requires c !in s
    ensures Count(s, c) == 0
    decreases |s|
  {
    if |s| > 0 {
      CountAbsent(s[1..], c);
    }
  }

  /** No alternative can start at a separator, so a separator is copied. */
  lemma LeadingSeparator(alts: seq<string>, redaction: string, s: string, sep: char)
    requires sep != '=' && forall f <- alts :: sep !in f
    requires |s| > 0 && s[0] == sep
    ensures MatchField(alts, s) == None
    ensures Scan(alts, redaction, s, sep) == [sep] + Scan(alts, redaction, s[1..], sep)
  {
    forall f | f in alts ensures !KeyAt(s, f) {
      if |f| > 0 {
        assert f[0] in f;
      }
    }
  }

  /** The alternative chosen at `s1` is chosen at `s2` too when it still
      matches there and `s2` matches no alternative `s1` does not. */
  lemma {:induction false} MatchFieldMonotone(alts: seq<string>, s1: string, s2: string, f: string)
    requires MatchField(alts, s1) == Some(f)
    requires KeyAt(s2, f)
    requires forall g <- alts :: KeyAt(s2, g) ==> KeyAt(s1, g)
    ensures MatchField(alts, s2) == Some(f)
  {
    if !KeyAt(s1, alts[0]) {
      MatchFieldMonotone(alts[1..], s1, s2, f);
    }
  }

  /** A message in which no configured `field=` occurs is returned unchanged. */
  lemma {:induction false} NoKeyUnchanged(alts: seq<string>, redaction: string, s: string, sep: char)
    requires NoKey(alts, s)
    ensures Scan(alts, redaction, s, sep) == s
    decreases |s|
  {
    if |s| > 0 {
      assert s[0..] == s;
      assert MatchField(alts, s) == None;
      forall p, f | 0 <= p < |s[1..]| && f in alts ensures !KeyAt(s[1..][p..], f) {
        assert s[1..][p..] == s[p + 1..];
      }
      NoKeyUnchanged(alts, redaction, s[1..], sep);
    }
  }

  /** Unfolding `Scan` where no alternative matches: one character is copied. */
  lemma ScanCopies(alts: seq<string>, redaction: string, m: string, sep: char)
    requires |m| > 0 && MatchField(alts, m) == None
    ensures Scan(alts, redaction, m, sep) == [m[0]] + Scan(alts, redaction, m[1..], sep)
  {
  }

  /** Unfolding `Scan` where `f` matches: `f=redaction` replaces `f=value`. */
  lemma ScanRedacts(alts: seq<string>, redaction: string, m: string, sep: char, f: string)
    requires MatchField(alts, m) == Some(f)
    ensures KeyAt(m, f)
    ensures Scan(alts, redaction, m, sep)
            == f + "=" + redaction + Scan(alts, redaction, AfterValue(m, f, sep), sep)
  {
  }

  lemma CharOfPrefix(s: string, p: string, i: nat)
    requires |p| <= |s| && s[..|p|] == p && i < |p|
    ensures s[i] in p
  {
    assert s[i] == p[i];
  }

  /** In `f=redaction` followed by nothing or by a separator, a separator-free
      `g=` at the start can only end at the `=` after `f` or before it. */
  lemma KeyInRedactedHead(f: string, redaction: string, tail: string, sep: char, g: string)
    requires sep != '=' && '=' !in redaction && sep !in redaction && sep !in g
    requires tail == [] || tail[0] == sep
    requires KeyAt(f + "=" + redaction + tail, g)
    ensures |g| <= |f|
  {
    var out := f + "=" + redaction + tail;
    var k := |f| + 1;
    if |f| < |g| < k + |redaction| {
      assert false;
    } else if |g| == k + |redaction| {
      assert false;
    } else if |g| > k + |redaction| {
      CharOfPrefix(out, g, k + |redaction|);
      assert false;
    }
  }

  /** `g=` at the start of `[c] + t` is `c` followed by `g[1..]=` at the start of `t`. */
  lemma KeyAfterChar(c: char, t: string, g: string)
    requires |g| > 0
    ensures KeyAt([c] + t, g) <==> g[0] == c && KeyAt(t, g[1..])
  {
    var s := [c] + t;
    if KeyAt(s, g) {
      assert t[..|g| - 1] == s[1..|g|];
      assert s[1..|g|] == g[1..];
    }
    if g[0] == c && KeyAt(t, g[1..]) {
      assert s[..|g|] == [c] + t[..|g| - 1];
    }
  }

  /** In `f=redaction`, a `g=` with `|g| <= |f|` at the start is already in
      `f=`, hence in any text that starts with `f=`. */
  lemma KeyWithinFieldName(f: string, redaction: string, tail: string, m: string, g: string)
    requires KeyAt(m, f)
    requires |g| <= |f| && KeyAt(f + "=" + redaction + tail, g)
    ensures KeyAt(m, g)
  {
    var out := f + "=" + redaction + tail;
    var head := f + "=";
    assert out[..|g| + 1] == head[..|g| + 1];
    assert m[..|g| + 1] == head[..|g| + 1];
    assert m[..|g|] == out[..|g|];
  }

  /** Redaction output holds a separator-free `g=` only where the input did. */
  lemma {:induction false} KeyTransfer(alts: seq<string>, redaction: string, m: string, sep: char, g: string)
    requires Clean(alts, redaction, sep)
    requires sep !in g
    requires KeyAt(Scan(alts, redaction, m, sep), g)
    ensures KeyAt(m, g)
    decreases |m|
  {
    if |m| > 0 {
      match MatchField(alts, m)
      case None =>
        ScanCopies(alts, redaction, m, sep);
        var tailOut := Scan(alts, redaction, m[1..], sep);
        if |g| > 0 {
          KeyAfterChar(m[0], tailOut, g);
          KeyTransfer(alts, redaction, m[1..], sep, g[1..]);
          assert m == [m[0]] + m[1..];
          KeyAfterChar(m[0], m[1..], g);
        }
      case Some(f) =>
        ScanRedacts(alts, redaction, m, sep, f);
        var rest := AfterValue(m, f, sep);
        var tailOut := Scan(alts, redaction, rest, sep);
        ScanAfterValue(alts, redaction, rest, sep);
        KeyInRedactedHead(f, redaction, tailOut, sep, g);
        KeyWithinFieldName(f, redaction, tailOut, m, g);
    }
  }

  /** After a match the scan resumes at a separator or at the end, so the
      output there starts with the separator or is empty. */
  lemma ScanAfterValue(alts: seq<string>, redaction: string, rest: string, sep: char)
    requires Clean(alts, redaction, sep)
    requires rest == [] || rest[0] == sep
    ensures var out := Scan(alts, redaction, rest, sep);
            (rest == [] <==> out == []) && (out != [] ==> out[0] == sep)
  {
    if rest != [] {
      LeadingSeparator(alts, redaction, rest, sep);
    }
  }

  /** Applying the redaction to its own output changes nothing. */
  lemma {:induction false} ScanIdempotent(alts: seq<string>, redaction: string, m: string, sep: char)
    requires Clean(alts, redaction, sep)
    ensures var out := Scan(alts, redaction, m, sep);
            Scan(alts, redaction, out, sep) == out
    decreases |m|
  {
    if |m| > 0 {
      match MatchField(alts, m)
      case None =>
        ScanCopies(alts, redaction, m, sep);
        ScanIdempotent(alts, redaction, m[1..], sep);
        CopiedStaysCopied(alts, redaction, m, sep);
      case Some(f) =>
        var rest := AfterValue(m, f, sep);
        ScanIdempotent(alts, redaction, rest, sep);
        RedactedStaysRedacted(alts, redaction, m, sep, f);
    }
  }

  /** Where the scan copies a character, rescanning its output copies it too. */
  lemma CopiedStaysCopied(alts: seq<string>, redaction: string, m: string, sep: char)
    requires Clean(alts, redaction, sep)
    requires |m| > 0 && MatchField(alts, m) == None
    ensures var out := Scan(alts, redaction, m, sep);
            Scan(alts, redaction, out, sep)
            == [m[0]] + Scan(alts, redaction, Scan(alts, redaction, m[1..], sep), sep)
  {
    var out := Scan(alts, redaction, m, sep);
    var tailOut := Scan(alts, redaction, m[1..], sep);
    ScanCopies(alts, redaction, m, sep);
    forall g | g in alts ensures !KeyAt(out, g) {
      if KeyAt(out, g) {
        KeyTransfer(alts, redaction, m, sep, g);
      }
    }
    ScanCopies(alts, redaction, out, sep);
    assert out[1..] == tailOut;
  }

  /** Where the scan redacts `f=value`, rescanning its output picks the same
      field and swallows exactly the redaction. */
  lemma RedactedStaysRedacted(alts: seq<string>, redaction: string, m: string, sep: char, f: string)
    requires Clean(alts, redaction, sep)
    requires MatchField(alts, m) == Some(f)
    ensures var out := Scan(alts, redaction, m, sep);
            var tailOut := Scan(alts, redaction, AfterValue(m, f, sep), sep);
            Scan(alts, redaction, out, sep)
            == f + "=" + redaction + Scan(alts, redaction, tailOut, sep)
  {
    var out := Scan(alts, redaction, m, sep);
    var rest := AfterValue(m, f, sep);
    var tailOut := Scan(alts, redaction, rest, sep);
    ScanRedacts(alts, redaction, m, sep, f);
    ScanAfterValue(alts, redaction, rest, sep);
    forall g | g in alts && KeyAt(out, g) ensures KeyAt(m, g) {
      KeyTransfer(alts, redaction, m, sep, g);
    }
    RescanHead(alts, redaction, sep, f, m, tailOut, out);
    ScanRedacts(alts, redaction, out, sep, f);
  }

  /** Rescanning `f=redaction` followed by nothing or by a separator: the same
      field is chosen and exactly the redaction is swallowed. */
  lemma RescanHead(alts: seq<string>, redaction: string, sep: char, f: string, m: string, tailOut: string, out: string)
    requires Clean(alts, redaction, sep)
    requires MatchField(alts, m) == Some(f)
    requires out == f + "=" + redaction + tailOut
    requires tailOut == [] || tailOut[0] == sep
    requires forall g <- alts :: KeyAt(out, g) ==> KeyAt(m, g)
    ensures MatchField(alts, out) == Some(f)
    ensures AfterValue(out, f, sep) == tailOut
  {
    assert out[..|f|] == f;
    assert KeyAt(out, f);
    MatchFieldMonotone(alts, m, out, f);
    assert out[|f| + 1..] == redaction + tailOut;
    ValueLengthUpToSeparator(redaction, tailOut, sep);
  }

  /** `[^sep]*` stops exactly where a separator-free prefix ends, when what
      follows is empty or starts with the separator. */
  lemma {:induction false} ValueLengthUpToSeparator(a: string, b: string, sep: char)
    requires sep !in a
    requires b == [] || b[0] == sep
    ensures ValueLength(a + b, sep) == |a|
    decreases |a|
  {
    if |a| > 0 {
      assert (a + b)[1..] == a[1..] + b;
      ValueLengthUpToSeparator(a[1..], b, sep);
    } else {
      assert a + b == b;
    }
  }

  lemma SeparatorBeyond(s: string, n: nat, i: nat, sep: char)
    requires n < |s| && i < |s| && s[i] == sep
    requires forall j :: 0 <= j <= n ==> s[j] != sep
    ensures n < i
  {
  }

  /** A separator-free `f=` starts a message at the same place whether or not a
      separator and more text follow the first segment. */
  lemma KeyBeforeSeparator(a: string, b: string, sep: char, f: string)
    requires sep != '=' && sep !in f
    ensures KeyAt(a + [sep] + b, f) <==> KeyAt(a, f)
  {
    var s := a + [sep] + b;
    if KeyAt(a, f) {
      assert s[..|f|] == a[..|f|];
    }
    if KeyAt(s, f) {
      forall j | 0 <= j <= |f| ensures s[j] != sep {
        if j < |f| {
          assert s[j] == f[j];
        }
      }
      SeparatorBeyond(s, |f|, |a|, sep);
      assert s[..|f|] == a[..|f|];
    }
  }

  lemma {:induction false} ValueLengthBeforeSeparator(a: string, b: string, sep: char)
    ensures ValueLength(a + [sep] + b, sep) == ValueLength(a, sep)
    decreases |a|
  {
    if |a| > 0 && a[0] != sep {
      assert (a + [sep] + b)[1..] == a[1..] + [sep] + b;
      ValueLengthBeforeSeparator(a[1..], b, sep);
    }
  }

  /** The alternative chosen at the start of a segment does not depend on
      what follows the segment's separator. */
  lemma MatchFieldBeforeSeparator(alts: seq<string>, a: string, b: string, sep: char)
    requires sep != '=' && forall f <- alts :: sep !in f
    ensures MatchField(alts, a + [sep] + b) == MatchField(alts, a)
  {
    var s := a + [sep] + b;
    forall g | g in alts ensures KeyAt(s, g) <==> KeyAt(a, g) {
      KeyBeforeSeparator(a, b, sep, g);
    }
    if MatchField(alts, a).Some? {
      MatchFieldMonotone(alts, a, s, MatchField(alts, a).value);
    }
  }

  /** A value stops at the segment's separator at the latest. */
  lemma AfterValueBeforeSeparator(a: string, b: string, sep: char, f: string)
    requires KeyAt(a, f) && KeyAt(a + [sep] + b, f)
    ensures AfterValue(a + [sep] + b, f, sep) == AfterValue(a, f, sep) + [sep] + b
  {
    var s := a + [sep] + b;
    var ta := a[|f| + 1..];
    assert s[|f| + 1..] == ta + [sep] + b;
    ValueLengthBeforeSeparator(ta, b, sep);
    var n := ValueLength(ta, sep);
    assert (ta + [sep] + b)[n..] == ta[n..] + [sep] + b;
  }

  /** The redaction works segment by segment: a separator is copied where it
      stands, and the text on either side of it is redacted independently. */
  lemma {:induction false} SplitAtSeparator(alts: seq<string>, redaction: string, a: string, b: string, sep: char)
    requires sep != '=' && forall f <- alts :: sep !in f
    ensures Scan(alts, redaction, a + [sep] + b, sep)
            == Scan(alts, redaction, a, sep) + [sep] + Scan(alts, redaction, b, sep)
    decreases |a|
  {
    if |a| == 0 {
      SplitEmpty(alts, redaction, b, sep);
    } else if MatchField(alts, a).None? {
      SplitAtSeparator(alts, redaction, a[1..], b, sep);
      SplitCopied(alts, redaction, a, b, sep);
    } else {
      var f := MatchField(alts, a).value;
      SplitAtSeparator(alts, redaction, AfterValue(a, f, sep), b, sep);
      SplitRedacted(alts, redaction, a, b, sep, f);
    }
  }

  /** `SplitAtSeparator` with nothing before the separator. */
  lemma SplitEmpty(alts: seq<string>, redaction: string, b: string, sep: char)
    requires sep != '=' && forall f <- alts :: sep !in f
    ensures Scan(alts, redaction, [] + [sep] + b, sep) == Scan(alts, redaction, [], sep) + [sep] + Scan(alts, redaction, b, sep)
  {
    var s := [] + [sep] + b;
    assert s == [sep] + b;
    LeadingSeparator(alts, redaction, s, sep);
    assert s[1..] == b;
  }

  /** The step of `SplitAtSeparator` where the first character is copied. */
  lemma SplitCopied(alts: seq<string>, redaction: string, a: string, b: string, sep: char)
    requires sep != '=' && forall f <- alts :: sep !in f
    requires |a| > 0 && MatchField(alts, a).None?
    requires Scan(alts, redaction, a[1..] + [sep] + b, sep)
             == Scan(alts, redaction, a[1..], sep) + [sep] + Scan(alts, redaction, b, sep)
    ensures Scan(alts, redaction, a + [sep] + b, sep)
            == Scan(alts, redaction, a, sep) + [sep] + Scan(alts, redaction, b, sep)
  {
    CopiedBeforeSeparator(alts, redaction, a, b, sep);
    ScanCopies(alts, redaction, a, sep);
    Regroup([a[0]], Scan(alts, redaction, a[1..], sep), [sep], Scan(alts, redaction, b, sep),
            Scan(alts, redaction, a + [sep] + b, sep), Scan(alts, redaction, a[1..] + [sep] + b, sep),
            Scan(alts, redaction, a, sep));
  }

  lemma CopiedBeforeSeparator(alts: seq<string>, redaction: string, a: string, b: string, sep: char)
    requires sep != '=' && forall f <- alts :: sep !in f
    requires |a| > 0 && MatchField(alts, a).None?
    ensures Scan(alts, redaction, a + [sep] + b, sep) == [a[0]] + Scan(alts, redaction, a[1..] + [sep] + b, sep)
  {
    var s := a + [sep] + b;
    MatchFieldBeforeSeparator(alts, a, b, sep);
    ScanCopies(alts, redaction, s, sep);
    assert s[1..] == a[1..] + [sep] + b;
  }

  /** The step of `SplitAtSeparator` where `f=value` is redacted. */
  lemma SplitRedacted(alts: seq<string>, redaction: string, a: string, b: string, sep: char, f: string)
    requires sep != '=' && forall f <- alts :: sep !in f
    requires MatchField(alts, a) == Some(f)
    requires Scan(alts, redaction, AfterValue(a, f, sep) + [sep] + b, sep)
             == Scan(alts, redaction, AfterValue(a, f, sep), sep) + [sep] + Scan(alts, redaction, b, sep)
    ensures Scan(alts, redaction, a + [sep] + b, sep)
            == Scan(alts, redaction, a, sep) + [sep] + Scan(alts, redaction, b, sep)
  {
    RedactedBeforeSeparator(alts, redaction, a, b, sep, f);
    ScanRedacts(alts, redaction, a, sep, f);
    Regroup(f + "=" + redaction, Scan(alts, redaction, AfterValue(a, f, sep), sep), [sep], Scan(alts, redaction, b, sep),
            Scan(alts, redaction, a + [sep] + b, sep), Scan(alts, redaction, AfterValue(a, f, sep) + [sep] + b, sep),
            Scan(alts, redaction, a, sep));
  }

  lemma RedactedBeforeSeparator(alts: seq<string>, redaction: string, a: string, b: string, sep: char, f: string)
    requires sep != '=' && forall f <- alts :: sep !in f
    requires MatchField(alts, a) == Some(f)
    ensures Scan(alts, redaction, a + [sep] + b, sep)
            == f + "=" + redaction + Scan(alts, redaction, AfterValue(a, f, sep) + [sep] + b, sep)
  {
    var s := a + [sep] + b;
    MatchFieldBeforeSeparator(alts, a, b, sep);
    ScanRedacts(alts, redaction, s, sep, f);
    AfterValueBeforeSeparator(a, b, sep, f);
  }

  /** Concatenation regrouped: if `whole` is `head` then `inner`, `inner` is
      `rest`, `mid`, `last`, and `prefix` is `head` then `rest`, then `whole`
      is `prefix`, `mid`, `last`. */
  lemma Regroup<T>(head: seq<T>, rest: seq<T>, mid: seq<T>, last: seq<T>, whole: seq<T>, inner: seq<T>, prefix: seq<T>)
    requires whole == head + inner && inner == rest + mid + last && prefix == head + rest
    ensures whole == prefix + mid + last
  {
  }

  /** A segment without separators stays without separators. */
  lemma {:induction false} SegmentStaysSegment(alts: seq<string>, redaction: string, s: string, sep: char)
    requires sep != '=' && sep !in redaction && forall f <- alts :: sep !in f
    requires sep !in s
    ensures sep !in Scan(alts, redaction, s, sep)
    decreases |s|
  {
    if |s| > 0 {
      match MatchField(alts, s)
      case None =>
        ScanCopies(alts, redaction, s, sep);
        SegmentStaysSegment(alts, redaction, s[1..], sep);
      case Some(f) =>
        ScanRedacts(alts, redaction, s, sep, f);
        assert Scan(alts, redaction, s, sep) == f + "=" + redaction;
    }
  }

  /** The redaction keeps the number of separators. */
  lemma {:induction false} SeparatorCountKept(alts: seq<string>, redaction: string, s: string, sep: char)
    requires sep !in redaction
    ensures Count(Scan(alts, redaction, s, sep), sep) == Count(s, sep)
    decreases |s|
  {
    if |s| == 0 {
      return;
    }
    match MatchField(alts, s)
    case None =>
      ScanCopies(alts, redaction, s, sep);
      SeparatorCountKept(alts, redaction, s[1..], sep);
      CountAppend([s[0]], Scan(alts, redaction, s[1..], sep), sep);
      CountAppend([s[0]], s[1..], sep);
      assert [s[0]] + s[1..] == s;
    case Some(f) =>
      ScanRedacts(alts, redaction, s, sep, f);
      var rest := AfterValue(s, f, sep);
      SeparatorCountKept(alts, redaction, rest, sep);
      MatchCountKept(s, f, rest, redaction, Scan(alts, redaction, rest, sep), sep);
  }

  /** One match of the scan: `f=value` becomes `f=redaction`, and neither the
      value nor the redaction holds a separator, so the count carries over
      from what follows. */
  lemma MatchCountKept(s: string, f: string, rest: string, redaction: string, scanned: string, sep: char)
    requires KeyAt(s, f) && rest == AfterValue(s, f, sep)
    requires sep !in redaction && Count(scanned, sep) == Count(rest, sep)
    ensures Count(f + "=" + redaction + scanned, sep) == Count(s, sep)
  {
    var k := |s| - |rest|;
    var value := s[|f| + 1..k];
    assert s == f + "=" + value + rest by {
      assert s[..|f|] == f;
    }
    assert sep !in value by {
      assert forall i :: 0 <= i < |value| ==> value[i] == s[|f| + 1 + i];
    }
    CountAbsent(value, sep);
    CountAbsent(redaction, sep);
    CountAppend(f + "=" + value, rest, sep);
    CountAppend(f + "=", value, sep);
    CountAppend(f + "=" + redaction, scanned, sep);
    CountAppend(f + "=", redaction, sep);
  }

  /** `RedactedAt` survives putting text in front. */
  lemma RedactedAtShift(redaction: string, x: string, tail: string, q: nat, sep: char)
    requires RedactedAt(redaction, tail, q, sep)
    ensures RedactedAt(redaction, x + tail, |x| + q, sep)
  {
    var s := x + tail;
    assert s[|x| + q..|x| + q + |redaction|] == tail[q..q + |redaction|];
  }

  /** In `f=redaction` followed by nothing or by a separator, a `g=` that starts
      inside the head ends exactly at the `=` after `f`, given field names
      without `=` or separator. */
  lemma KeyInsideRedactedHead(f: string, redaction: string, tail: string, sep: char, g: string, p: nat)
    requires sep != '=' && '=' !in redaction && sep !in redaction && sep !in g && '=' !in f
    requires tail == [] || tail[0] == sep
    requires p < |f| + 1 + |redaction|
    requires KeyAt((f + "=" + redaction + tail)[p..], g)
    ensures p + |g| == |f|
  {
    var out := f + "=" + redaction + tail;
    var k := |f| + 1;
    var e := p + |g|;
    assert out[e] == '=';
    if e < |f| {
      assert false;
    } else if |f| < e < k + |redaction| {
      assert false;
    } else if e == k + |redaction| {
      assert false;
    } else if e > k + |redaction| {
      CharOfPrefix(out[p..], g, k + |redaction| - p);
      assert false;
    }
  }

  /** A character no `field=` starts at, put in front of fully redacted text,
      keeps it fully redacted. */
  lemma FullyRedactedAfterCopy(alts: seq<string>, redaction: string, c: char, tail: string, sep: char)
    requires forall g <- alts :: !KeyAt([c] + tail, g)
    requires FullyRedacted(alts, redaction, tail, sep)
    ensures FullyRedacted(alts, redaction, [c] + tail, sep)
  {
    var out := [c] + tail;
    forall p, g | 0 <= p < |out| && g in alts && KeyAt(out[p..], g)
      ensures RedactedAt(redaction, out, p + |g| + 1, sep)
    {
      if p == 0 {
        assert false;
      } else {
        assert out[p..] == tail[p - 1..];
        RedactedAtShift(redaction, [c], tail, p - 1 + |g| + 1, sep);
      }
    }
  }

  /** `f=redaction`, put in front of nothing or of fully redacted text that
      starts with a separator, gives fully redacted text. */
  lemma FullyRedactedAfterMatch(alts: seq<string>, redaction: string, f: string, tail: string, sep: char)
    requires Clean(alts, redaction, sep) && forall g <- alts :: '=' !in g
    requires '=' !in f
    requires tail == [] || tail[0] == sep
    requires FullyRedacted(alts, redaction, tail, sep)
    ensures FullyRedacted(alts, redaction, f + "=" + redaction + tail, sep)
  {
    var head := f + "=" + redaction;
    var out := head + tail;
    assert out == f + "=" + redaction + tail;
    forall p, g | 0 <= p < |out| && g in alts && KeyAt(out[p..], g)
      ensures RedactedAt(redaction, out, p + |g| + 1, sep)
    {
      if p >= |head| {
        KeyInTail(alts, redaction, head, tail, sep, g, p);
      } else {
        assert sep !in g;
        KeyInHead(f, redaction, tail, sep, g, p);
      }
    }
  }

  /** A `g=` inside fully redacted `tail` keeps its redaction behind `head`. */
  lemma KeyInTail(alts: seq<string>, redaction: string, head: string, tail: string, sep: char, g: string, p: nat)
    requires FullyRedacted(alts, redaction, tail, sep) && g in alts
    requires |head| <= p < |head + tail| && KeyAt((head + tail)[p..], g)
    ensures RedactedAt(redaction, head + tail, p + |g| + 1, sep)
  {
    assert (head + tail)[p..] == tail[p - |head|..];
    RedactedAtShift(redaction, head, tail, p - |head| + |g| + 1, sep);
  }

  /** A `g=` starting inside `f=redaction` is `f=` itself, followed by the
      redaction. */
  lemma KeyInHead(f: string, redaction: string, tail: string, sep: char, g: string, p: nat)
    requires sep != '=' && '=' !in redaction && sep !in redaction && sep !in g && '=' !in f
    requires tail == [] || tail[0] == sep
    requires p < |f| + 1 + |redaction|
    requires KeyAt((f + "=" + redaction + tail)[p..], g)
    ensures RedactedAt(redaction, f + "=" + redaction + tail, p + |g| + 1, sep)
  {
    var out := f + "=" + redaction + tail;
    KeyInsideRedactedHead(f, redaction, tail, sep, g, p);
    assert out[|f| + 1..|f| + 1 + |redaction|] == redaction;
  }

  /** Every configured `field=` in the output carries exactly the redaction,
      up to a separator or the end: no value of a configured field survives. */
  lemma {:induction false} ScanFullyRedacts(alts: seq<string>, redaction: string, m: string, sep: char)
    requires Clean(alts, redaction, sep) && forall f <- alts :: '=' !in f
    ensures FullyRedacted(alts, redaction, Scan(alts, redaction, m, sep), sep)
    decreases |m|
  {
    if |m| > 0 {
      match MatchField(alts, m)
      case None =>
        ScanCopies(alts, redaction, m, sep);
        ScanFullyRedacts(alts, redaction, m[1..], sep);
        forall g | g in alts ensures !KeyAt(Scan(alts, redaction, m, sep), g) {
          if KeyAt(Scan(alts, redaction, m, sep), g) {
            KeyTransfer(alts, redaction, m, sep, g);
          }
        }
        FullyRedactedAfterCopy(alts, redaction, m[0], Scan(alts, redaction, m[1..], sep), sep);
      case Some(f) =>
        ScanRedacts(alts, redaction, m, sep, f);
        var rest := AfterValue(m, f, sep);
        ScanAfterValue(alts, redaction, rest, sep);
        ScanFullyRedacts(alts, redaction, rest, sep);
        FullyRedactedAfterMatch(alts, redaction, f, Scan(alts, redaction, rest, sep), sep);
    }
  }

  /** A call of `filter_datum` whose separator is not `=`, whose redaction holds
      neither `=` nor the separator, and whose field names hold no separator. */
  predicate CleanCall(fields: seq<string>, redaction: string, separator: char) {
    && ValidCall(fields, redaction, separator)
    && Clean(fields, redaction, separator)
  }

  lemma AlternativesClean(fields: seq<string>, redaction: string, separator: char)
    requires CleanCall(fields, redaction, separator)
    ensures Clean(Alternatives(fields), redaction, separator)
  {
  }

  /** A message in which no configured `field=` occurs comes back as it is.
      With an empty field list the pattern is `()=...`, so that means a
      message without any `=`. */
  lemma FilterDatumWithoutKeys(fields: seq<string>, redaction: string, message: string, separator: char)
    requires ValidCall(fields, redaction, separator)
    requires NoKey(Alternatives(fields), message)
    ensures FilterDatum(fields, redaction, message, separator) == message
  {
    NoKeyUnchanged(Alternatives(fields), redaction, message, separator);
  }

  /** Filtering an already filtered message changes nothing. */
  lemma FilterDatumIdempotent(fields: seq<string>, redaction: string, message: string, separator: char)
    requires CleanCall(fields, redaction, separator)
    ensures var once := FilterDatum(fields, redaction, message, separator);
            FilterDatum(fields, redaction, once, separator) == once
  {
    AlternativesClean(fields, redaction, separator);
    ScanIdempotent(Alternatives(fields), redaction, message, separator);
  }

  /** Separators stay where they are: the text between two separators is
      filtered on its own, and a value never runs past a separator. */
  lemma FilterDatumBySegment(fields: seq<string>, redaction: string, a: string, b: string, separator: char)
    requires ValidCall(fields, redaction, separator)
    requires separator != '=' && forall f <- fields :: separator !in f
    ensures FilterDatum(fields, redaction, a + [separator] + b, separator)
            == FilterDatum(fields, redaction, a, separator) + [separator]
               + FilterDatum(fields, redaction, b, separator)
  {
    SplitAtSeparator(Alternatives(fields), redaction, a, b, separator);
  }

  /** A single `f=value` whose value holds no separator, where `f` is the
      alternative the pattern picks, comes back as `f=redaction`. */
  lemma FilterDatumRedactsPair(fields: seq<string>, redaction: string, f: string, value: string, separator: char)
    requires ValidCall(fields, redaction, separator)
    requires MatchField(Alternatives(fields), f + "=" + value) == Some(f)
    requires separator !in value
    ensures FilterDatum(fields, redaction, f + "=" + value, separator) == f + "=" + redaction
  {
    var m := f + "=" + value;
    var alts := Alternatives(fields);
    forall i | |f| + 1 <= i < |f| + 1 + |value| ensures m[i] != separator {
      assert m[i] == value[i - |f| - 1];
    }
    RedactStep(alts, redaction, m, separator, f, |value|);
    assert m[|f| + 1 + |value|..] == [];
  }

  /** Filtering keeps the number of separators. */
  lemma FilterDatumKeepsSeparatorCount(fields: seq<string>, redaction: string, message: string, separator: char)
    requires ValidCall(fields, redaction, separator)
    requires separator !in redaction
    ensures Count(FilterDatum(fields, redaction, message, separator), separator) == Count(message, separator)
  {
    SeparatorCountKept(Alternatives(fields), redaction, message, separator);
  }

  /** After filtering, every configured `field=` is followed by exactly the
      redaction and then a separator or the end of the message. */
  lemma FilterDatumRedactsEveryValue(fields: seq<string>, redaction: string, message: string, separator: char)
    requires CleanCall(fields, redaction, separator)
    requires forall f <- fields :: '=' !in f
    ensures FullyRedacted(Alternatives(fields), redaction,
                          FilterDatum(fields, redaction, message, separator), separator)
  {
    AlternativesClean(fields, redaction, separator);
    ScanFullyRedacts(Alternatives(fields), redaction, message, separator);
  }

  /** A stretch where no configured `field=` starts is copied as it is. */
  lemma {:induction false} CopyUnmatched(alts: seq<string>, redaction: string, x: string, y: string, sep: char)
    requires forall p, f :: 0 <= p < |x| && f in alts ==> !KeyAt((x + y)[p..], f)
    ensures Scan(alts, redaction, x + y, sep) == x + Scan(alts, redaction, y, sep)
    decreases |x|
  {
    if |x| == 0 {
      assert x + y == y;
    } else {
      UnmatchedStretchTail(alts, x, y);
      ScanCopies(alts, redaction, x + y, sep);
      CopyUnmatched(alts, redaction, x[1..], y, sep);
      assert [x[0]] + (x[1..] + Scan(alts, redaction, y, sep)) == x + Scan(alts, redaction, y, sep);
    }
  }

  lemma UnmatchedStretchTail(alts: seq<string>, x: string, y: string)
    requires |x| > 0
    requires forall p, f :: 0 <= p < |x| && f in alts ==> !KeyAt((x + y)[p..], f)
    ensures MatchField(alts, x + y) == None
    ensures (x + y)[1..] == x[1..] + y && (x + y)[0] == x[0]
    ensures forall p, f :: 0 <= p < |x[1..]| && f in alts ==> !KeyAt((x[1..] + y)[p..], f)
  {
    var s := x + y;
    assert s[0..] == s;
    forall p, f | 0 <= p < |x[1..]| && f in alts ensures !KeyAt((x[1..] + y)[p..], f) {
      assert (x[1..] + y)[p..] == s[p + 1..];
    }
  }

  /** Where the value after `f=` is `n` characters up to a separator or the
      end, the rest after the match starts right behind those `n`. */
  lemma AfterValueAt(s: string, f: string, sep: char, n: nat)
    requires KeyAt(s, f) && |f| + 1 + n <= |s|
    requires forall i :: |f| + 1 <= i < |f| + 1 + n ==> s[i] != sep
    requires |f| + 1 + n == |s| || s[|f| + 1 + n] == sep
    ensures AfterValue(s, f, sep) == s[|f| + 1 + n..]
  {
    var tail := s[|f| + 1..];
    assert forall i :: 0 <= i < n ==> tail[i] == s[|f| + 1 + i];
    assert n < |tail| ==> tail[n] == s[|f| + 1 + n];
    assert ValueLength(tail, sep) == n;
  }

  /** Unfolding `Scan` at a match `f=value` whose value is `n` characters up
      to a separator or the end. */
  lemma RedactStep(alts: seq<string>, redaction: string, m: string, sep: char, f: string, n: nat)
    requires MatchField(alts, m) == Some(f) && |f| + 1 + n <= |m|
    requires forall i :: |f| + 1 <= i < |f| + 1 + n ==> m[i] != sep
    requires |f| + 1 + n == |m| || m[|f| + 1 + n] == sep
    ensures Scan(alts, redaction, m, sep) == f + "=" + redaction + Scan(alts, redaction, m[|f| + 1 + n..], sep)
  {
    ScanRedacts(alts, redaction, m, sep, f);
    AfterValueAt(m, f, sep, n);
  }

  /** With two alternatives, where only the second is followed by `=`, the
      second is chosen. */
  lemma MatchSecond(alts: seq<string>, s: string)
    requires |alts| == 2 && !KeyAt(s, alts[0]) && KeyAt(s, alts[1])
    ensures MatchField(alts, s) == Some(alts[1])
  {
    assert alts[1..][0] == alts[1];
  }

  /** Field names are not anchored: `name` also matches inside `username`, whose
      value is redacted while the prefix `user` stays. */
  lemma UnanchoredFieldName()
    ensures FilterDatum(["name"], "***", "username=bob;id=7", ';') == "username=***;id=7"
  {
    var fields := ["name"];
    var a, b := "username=bob", "id=7";
    var m, out := "username=bob;id=7", "username=***;id=7";
    assert m == a + [';'] + b by { SplitLiteral(m, a, b); }
    assert Scan(fields, "***", a + [';'] + b, ';') == "username=***" + [';'] + b by {
      SplitAtSeparator(fields, "***", a, b, ';');
      UsernameSegment(fields, a);
      IdSegment(fields, b);
    }
    assert "username=***" + [';'] + b == out by { JoinLiteral(b, out); }
    assert Alternatives(fields) == fields;
  }

  lemma SplitLiteral(m: string, a: string, b: string)
    requires m == "username=bob;id=7" && a == "username=bob" && b == "id=7"
    ensures m == a + [';'] + b
  {
  }

  lemma JoinLiteral(b: string, out: string)
    requires b == "id=7" && out == "username=***;id=7"
    ensures "username=***" + [';'] + b == out
  {
  }

  lemma UsernameSegment(alts: seq<string>, m: string)
    requires alts == ["name"] && m == "username=bob"
    ensures Scan(alts, "***", m, ';') == "username=***"
  {
    var x, y := m[..4], m[4..];
    assert x == "user" && y == "name=bob";
    assert Scan(alts, "***", x + y, ';') == x + Scan(alts, "***", y, ';') by {
      UserPrefixUnmatched(alts, x, y);
      CopyUnmatched(alts, "***", x, y, ';');
    }
    assert Scan(alts, "***", y, ';') == "name=***" by {
      NameValueRedacted(alts, y);
    }
    assert m == x + y;
    assert x + "name=***" == "username=***" by {
      UserJoin(x);
    }
  }

  lemma UserJoin(x: string)
    requires x == "user"
    ensures x + "name=***" == "username=***"
  {
  }

  lemma UserPrefixUnmatched(alts: seq<string>, x: string, y: string)
    requires alts == ["name"] && x == "user" && y == "name=bob"
    ensures forall p, f :: 0 <= p < |x| && f in alts ==> !KeyAt((x + y)[p..], f)
  {
    forall p, f | 0 <= p < |x| && f in alts ensures !KeyAt((x + y)[p..], f) {
      var t := (x + y)[p..];
      assert t[0] == x[p];
    }
  }

  lemma NameValueRedacted(alts: seq<string>, m: string)
    requires alts == ["name"] && m == "name=bob"
    ensures Scan(alts, "***", m, ';') == "name=***"
  {
    assert KeyAt(m, alts[0]) by { assert m[..4] == alts[0]; }
    assert MatchField(alts, m) == Some(alts[0]);
    AfterValueAt(m, alts[0], ';', 3);
    ScanRedacts(alts, "***", m, ';', alts[0]);
  }

  lemma IdSegment(alts: seq<string>, m: string)
    requires alts == ["name"] && m == "id=7"
    ensures Scan(alts, "***", m, ';') == m
  {
    forall p, f | 0 <= p < |m| && f in alts ensures !KeyAt(m[p..], f) {
      assert m[p] != 'n';
    }
    NoKeyUnchanged(alts, "***", m, ';');
  }

  /** The condition that no field name holds the separator cannot be dropped
      from `FilterDatumIdempotent`: with the field `k=R;z` listed before `k`,
      the first pass writes `k=R;z=w`, in which the second pass finds `k=R;z=`
      and redacts `w`. */
  lemma IdempotenceNeedsSeparatorFreeFields()
    ensures var once := FilterDatum(["k=R;z", "k"], "R", "k=v;z=w", ';');
            && once == "k=R;z=w"
            && FilterDatum(["k=R;z", "k"], "R", once, ';') == "k=R;z=R"
            && FilterDatum(["k=R;z", "k"], "R", once, ';') != once
  {
    var fields := ["k=R;z", "k"];
    assert Alternatives(fields) == fields;
    FirstPass(fields, "k=v;z=w");
    SecondPass(fields, "k=R;z=w");
    assert "k=R;z=R"[6] != "k=R;z=w"[6];
  }

  lemma FirstPass(fields: seq<string>, m: string)
    requires fields == ["k=R;z", "k"] && m == "k=v;z=w"
    ensures Scan(fields, "R", m, ';') == "k=R;z=w"
  {
    var t := m[3..];
    assert Scan(fields, "R", m, ';') == fields[1] + "=" + "R" + t by {
      FirstPassMatch(fields, m);
      RedactStep(fields, "R", m, ';', fields[1], 1);
      FirstPassTail(fields, t);
    }
    assert fields[1] + "=" + "R" + t == "k=R;z=w" by {
      FirstPassJoin(fields[1], t);
    }
  }

  lemma FirstPassJoin(f: string, t: string)
    requires f == "k" && t == ";z=w"
    ensures f + "=" + "R" + t == "k=R;z=w"
  {
  }

  lemma FirstPassMatch(fields: seq<string>, m: string)
    requires fields == ["k=R;z", "k"] && m == "k=v;z=w"
    ensures MatchField(fields, m) == Some(fields[1])
  {
    assert !KeyAt(m, fields[0]) by { assert m[..|fields[0]|][2] != fields[0][2]; }
    assert KeyAt(m, fields[1]) by { assert m[..1] == fields[1]; }
    MatchSecond(fields, m);
  }

  lemma FirstPassTail(fields: seq<string>, t: string)
    requires fields == ["k=R;z", "k"] && t == ";z=w"
    ensures Scan(fields, "R", t, ';') == t
  {
    forall p, f | 0 <= p < |t| && f in fields ensures !KeyAt(t[p..], f) {
      if f == fields[1] {
        assert t[p] != 'k';
      } else {
        assert t[p] != 'k';
      }
    }
    NoKeyUnchanged(fields, "R", t, ';');
  }

  lemma SecondPass(fields: seq<string>, m: string)
    requires fields == ["k=R;z", "k"] && m == "k=R;z=w"
    ensures Scan(fields, "R", m, ';') == "k=R;z=R"
  {
    assert KeyAt(m, fields[0]) by { assert m[..5] == fields[0]; }
    assert MatchField(fields, m) == Some(fields[0]);
    AfterValueAt(m, fields[0], ';', 1);
    ScanRedacts(fields, "R", m, ';', fields[0]);
    assert fields[0] + "=" + "R" + [] == "k=R;z=R";
  }
}
