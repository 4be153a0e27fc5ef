/** Redaction of the quoted values in SQL error texts. MySQL quotes values
    without escaping, so a value may itself hold quotes, line breaks or text
    that looks like the rest of the message. */
module Redaction {
  import opened Keys

  predicate IsQuote(c: char) { c == '\'' }

  predicate QuoteFree(s: string) {
    forall i :: 0 <= i < |s| ==> !IsQuote(s[i])
  }

  function Quotes(s: string): nat {
    if s == [] then 0 else (if IsQuote(s[0]) then 1 else 0) + Quotes(s[1..])
  }

  // ----- The two regular expressions -----

  /** An expression opening'.*'(word'[^']*'row)$: the text before the value,
      the text between value and name and, for a column, the text before the
      row number. */
  datatype Pattern = Pattern(opening: string, word: string, row: Option<string>)

  const DUPLICATE := Pattern("Duplicate entry ", " for key ", None)
  const COLUMN := Pattern(" value: ", " for column ", Some(" at row "))

  predicate WellFormed(pt: Pattern) {
    QuoteFree(pt.word) && (pt.row.Some? ==> QuoteFree(pt.row.value))
  }

  function Opening(pt: Pattern): string {
    pt.opening + ['\'']
  }

  /** From the closing quote of the value to the opening quote of the name. */
  function Middle(pt: Pattern): string {
    ['\''] + pt.word + ['\'']
  }

  predicate AllDigits(s: string) {
    forall i :: 0 <= i < |s| ==> '0' <= s[i] <= '9'
  }

  /** From the closing quote of the name to the end. */
  predicate IsEnding(pt: Pattern, s: string) {
    && s != [] && IsQuote(s[0])
    && match pt.row
       case None => |s| == 1
       case Some(row) => |s| > 1 + |row| && s[1..][..|row|] == row && AllDigits(s[1..][|row|..])
  }

  function FirstQuote(s: string): (i: nat)
    ensures i <= |s| && QuoteFree(s[..i]) && (i < |s| ==> IsQuote(s[i]))
  {
    if s == [] || IsQuote(s[0]) then 0
    else
      var i := 1 + FirstQuote(s[1..]);
      assert s[..i] == [s[0]] + s[1..][..i - 1];
      i
  }

  /** The part of the expression after the value: '( for key '[^']*')$. */
  predicate IsTail(pt: Pattern, t: string) {
    var n := |Middle(pt)|;
    && |t| >= n && t[..n] == Middle(pt)
    && FirstQuote(t[n..]) < |t[n..]|
    && IsEnding(pt, t[n..][FirstQuote(t[n..])..])
  }

  /** The greedy .* takes the last possible closing quote. */
  function LastTail(pt: Pattern, msg: string, n: nat): (r: Option<nat>)
    requires n <= |msg|
    ensures r.Some? ==> r.value <= n && IsTail(pt, msg[r.value..])
    ensures r.Some? ==> forall q :: r.value < q <= n ==> !IsTail(pt, msg[q..])
    ensures r.None? ==> forall q :: 0 <= q <= n ==> !IsTail(pt, msg[q..])
  {
    if IsTail(pt, msg[n..]) then Some(n)
    else if n == 0 then None
    else LastTail(pt, msg, n - 1)
  }

  predicate OpensAt(pt: Pattern, msg: string, p: nat) {
    p + |Opening(pt)| <= |msg| && msg[p..p + |Opening(pt)|] == Opening(pt)
  }

  /** The leftmost start of a match whose value ends at q. */
  function FirstOpening(pt: Pattern, msg: string, from: nat, q: nat): (r: Option<nat>)
    requires q <= |msg|
    ensures r.Some? ==> from <= r.value && r.value + |Opening(pt)| <= q && OpensAt(pt, msg, r.value)
    ensures r.Some? ==> forall p :: from <= p < r.value ==> !OpensAt(pt, msg, p)
    ensures r.None? ==> forall p :: from <= p && p + |Opening(pt)| <= q ==> !OpensAt(pt, msg, p)
    decreases |msg| - from
  {
    if from + |Opening(pt)| > q then None
    else if OpensAt(pt, msg, from) then Some(from)
    else FirstOpening(pt, msg, from + 1, q)
  }

  /** start is the leftmost match, close the closing quote of the value. */
  datatype Match = Match(start: nat, close: nat)

  function Find(pt: Pattern, msg: string): (r: Option<Match>)
    ensures r.Some? ==> r.value.start < r.value.close < |msg|
  {
    match LastTail(pt, msg, |msg|)
    case None => None
    case Some(q) =>
      var p := FirstOpening(pt, msg, 0, q);
      if p.None? then None else Some(Match(p.value, q))
  }

  // ----- Other quoted text -----

  predicate IsLetter(c: char) {
    'a' <= c <= 'z' || 'A' <= c <= 'Z'
  }

  /** A quote between two letters, as in "doesn't". */
  predicate IsWordApostrophe(s: string, i: nat)
    requires i < |s|
  {
    0 < i < |s| - 1 && IsLetter(s[i - 1]) && IsLetter(s[i + 1])
  }

  predicate IsRealQuote(s: string, i: nat)
    requires i < |s|
  {
    IsQuote(s[i]) && !IsWordApostrophe(s, i)
  }

  function FirstReal(s: string, from: nat): (i: nat)
    requires from <= |s|
    ensures from <= i <= |s| && (i < |s| ==> IsRealQuote(s, i))
    ensures forall j :: from <= j < i ==> !IsRealQuote(s, j)
    decreases |s| - from
  {
    if from == |s| || IsRealQuote(s, from) then from else FirstReal(s, from + 1)
  }

  function LastReal(s: string, to: nat): (i: int)
    requires to <= |s|
    ensures -1 <= i < to && (i >= 0 ==> IsRealQuote(s, i))
    ensures forall j :: i < j < to ==> !IsRealQuote(s, j)
  {
    if to == 0 then -1 else if IsRealQuote(s, to - 1) then to - 1 else LastReal(s, to - 1)
  }

  /** All from the first to the last quote goes. */
  function RedactQuoted(msg: string): string {
    var first := FirstReal(msg, 0);
    if first == |msg| then msg
    else
      var last := LastReal(msg, |msg|);
      if last == first then msg[..first] + "'?'" else msg[..first] + "'?'" + msg[last + 1..]
  }

  // ----- redactSQLError -----

  function Redact(msg: string): string
    decreases |msg|
  {
    var dup := Find(DUPLICATE, msg);
    var col := Find(COLUMN, msg);
    if dup.Some? then
      Redact(msg[..dup.value.start]) + Opening(DUPLICATE) + "?" + msg[dup.value.close..]
    else if col.Some? then
      Redact(msg[..col.value.start]) + Opening(COLUMN) + "?" + msg[col.value.close..]
    else RedactQuoted(msg)
  }

  method RedactSqlError(msg: string) returns (out: string)
    ensures out == Redact(msg)
    decreases |msg|
  {
    var dup := Find(DUPLICATE, msg);
    if dup.Some? {
      var before := RedactSqlError(msg[..dup.value.start]);
      return before + Opening(DUPLICATE) + "?" + msg[dup.value.close..];
    }
    var col := Find(COLUMN, msg);
    if col.Some? {
      var before := RedactSqlError(msg[..col.value.start]);
      return before + Opening(COLUMN) + "?" + msg[col.value.close..];
    }
    out := RedactBetweenQuotes(msg);
  }

  /** The scan loop for all other quoted text. */
  method RedactBetweenQuotes(msg: string) returns (out: string)
    ensures out == RedactQuoted(msg)
  {
    var first, last := -1, -1;
    for i := 0 to |msg|
      invariant first == -1 <==> last == -1
      invariant first == -1 ==> forall j :: 0 <= j < i ==> !IsRealQuote(msg, j)
      invariant first != -1 ==> 0 <= first <= last < i && IsRealQuote(msg, first) && IsRealQuote(msg, last)
      invariant first != -1 ==> forall j :: 0 <= j < first || last < j < i ==> !IsRealQuote(msg, j)
    {
      if msg[i] == '\'' && !IsWordApostrophe(msg, i) {
        if first < 0 {
          first := i;
        }
        last := i;
      }
    }
    EndsAreFound(msg, first, last);
    if first < 0 {
      return msg;
    }
    if last == first {
      return msg[..first] + "'?'";
    }
    return msg[..first] + "'?'" + msg[last + 1..];
  }

  /** The ends that the scan found are the ends of the specification. */
  lemma EndsAreFound(msg: string, first: int, last: int)
    requires first == -1 ==> forall j :: 0 <= j < |msg| ==> !IsRealQuote(msg, j)
    requires first != -1 ==> 0 <= first <= last < |msg| && IsRealQuote(msg, first) && IsRealQuote(msg, last)
    requires first != -1 ==> forall j :: 0 <= j < first || last < j < |msg| ==> !IsRealQuote(msg, j)
    ensures FirstReal(msg, 0) == if first == -1 then |msg| else first
    ensures first != -1 ==> LastReal(msg, |msg|) == last
  {}

  // ----- A value never shows -----

  lemma {:induction false} QuotesOfConcat(a: string, b: string)
    ensures Quotes(a + b) == Quotes(a) + Quotes(b)
  {
    if a == [] {
      assert a + b == b;
    } else {
      QuotesOfConcat(a[1..], b);
      assert (a + b)[1..] == a[1..] + b;
    }
  }

  lemma {:induction false} QuoteFreeHasNone(s: string)
    ensures QuoteFree(s) <==> Quotes(s) == 0
  {
    if s != [] {
      QuoteFreeHasNone(s[1..]);
      assert QuoteFree(s) <==> !IsQuote(s[0]) && QuoteFree(s[1..]) by {
        assert forall i :: 0 <= i < |s[1..]| ==> s[1..][i] == s[i + 1];
        if !IsQuote(s[0]) && QuoteFree(s[1..]) {
          forall i | 0 <= i < |s| ensures !IsQuote(s[i]) {
            if i > 0 { assert s[1..][i - 1] == s[i]; }
          }
        }
      }
    }
  }

  lemma EndingHasOneQuote(pt: Pattern, s: string)
    requires WellFormed(pt) && IsEnding(pt, s)
    ensures Quotes(s) == 1
  {
    if pt.row.Some? {
      var row := pt.row.value;
      assert s[1..] == row + s[1..][|row|..];
      QuotesOfConcat(row, s[1..][|row|..]);
      QuoteFreeHasNone(row);
      QuoteFreeHasNone(s[1..][|row|..]);
    }
  }

  lemma MiddleHasTwoQuotes(pt: Pattern)
    requires WellFormed(pt)
    ensures Quotes(Middle(pt)) == 2
  {
    QuoteFreeHasNone(pt.word);
    QuotesOfConcat(['\''] + pt.word, ['\'']);
    QuotesOfConcat(['\''], pt.word);
  }

  /** Every tail holds exactly three quotes, so a text has at most one tail. */
  lemma TailHasThreeQuotes(pt: Pattern, t: string)
    requires WellFormed(pt) && IsTail(pt, t)
    ensures Quotes(t) == 3 && IsQuote(t[0])
  {
    var n := |Middle(pt)|;
    var rest := t[n..];
    var j := FirstQuote(rest);
    assert t == Middle(pt) + rest && rest == rest[..j] + rest[j..];
    QuotesOfConcat(Middle(pt), rest);
    QuotesOfConcat(rest[..j], rest[j..]);
    QuoteFreeHasNone(rest[..j]);
    EndingHasOneQuote(pt, rest[j..]);
    MiddleHasTwoQuotes(pt);
    assert t[0] == t[..n][0];
  }

  lemma SuffixHasFewerQuotes(msg: string, q: nat, r: nat)
    requires q < r <= |msg| && IsQuote(msg[q])
    ensures Quotes(msg[r..]) < Quotes(msg[q..])
  {
    var skipped := msg[q + 1..r];
    assert msg[q..][1..] == skipped + msg[r..];
    QuotesOfConcat(skipped, msg[r..]);
  }

  lemma TailIsUnique(pt: Pattern, msg: string, q: nat)
    requires WellFormed(pt) && q <= |msg| && IsTail(pt, msg[q..])
    ensures LastTail(pt, msg, |msg|) == Some(q)
  {
    var r := LastTail(pt, msg, |msg|).value;
    if q < r {
      TailHasThreeQuotes(pt, msg[q..]);
      TailHasThreeQuotes(pt, msg[r..]);
      SuffixHasFewerQuotes(msg, q, r);
    }
  }

  /** An error text: anything, then a value inside one of the two messages.
      ending closes the name: a quote, or a quote and the row number. */
  function ErrorText(pt: Pattern, prefix: string, value: string, name: string, ending: string): string {
    (prefix + Opening(pt) + value) + (Middle(pt) + name + ending)
  }

  lemma FormedTailIsTail(pt: Pattern, name: string, ending: string)
    requires QuoteFree(name) && IsEnding(pt, ending)
    ensures IsTail(pt, Middle(pt) + name + ending)
  {
    var t := Middle(pt) + name + ending;
    var n := |Middle(pt)|;
    assert t[..n] == Middle(pt) && t[n..] == name + ending;
    FirstQuoteAfter(name, ending);
    assert t[n..][|name|..] == ending;
  }

  lemma TailIsFormed(pt: Pattern, t: string) returns (name: string, ending: string)
    requires IsTail(pt, t)
    ensures QuoteFree(name) && IsEnding(pt, ending) && t == Middle(pt) + name + ending
  {
    var rest := t[|Middle(pt)|..];
    name, ending := rest[..FirstQuote(rest)], rest[FirstQuote(rest)..];
    assert rest == name + ending;
    assert t == t[..|Middle(pt)|] + rest;
  }

  /** The index test is the expression '(word'[^']*'row)$. */
  lemma TailMeansExpression(pt: Pattern, t: string)
    ensures IsTail(pt, t) <==>
      exists name, ending :: QuoteFree(name) && IsEnding(pt, ending) && t == Middle(pt) + name + ending
  {
    if IsTail(pt, t) {
      var name, ending := TailIsFormed(pt, t);
    }
    if name, ending :| QuoteFree(name) && IsEnding(pt, ending) && t == Middle(pt) + name + ending {
      FormedTailIsTail(pt, name, ending);
    }
  }

  lemma {:induction false} FirstQuoteAfter(name: string, ending: string)
    requires QuoteFree(name) && ending != [] && IsQuote(ending[0])
    ensures FirstQuote(name + ending) == |name|
  {
    if name == [] {
      assert name + ending == ending;
    } else {
      FirstQuoteAfter(name[1..], ending);
      assert (name + ending)[1..] == name[1..] + ending;
    }
  }

  /** Where the redaction starts: the leftmost opening, which lies in the part
      before the value. */
  function StartIn(pt: Pattern, prefix: string): (p: nat)
    ensures p <= |prefix| && OpensAt(pt, prefix + Opening(pt), p)
    ensures forall j :: 0 <= j < p ==> !OpensAt(pt, prefix + Opening(pt), j)
  {
    var text := prefix + Opening(pt);
    assert OpensAt(pt, text, |prefix|);
    FirstOpening(pt, text, 0, |text|).value
  }

  lemma OpensInText(pt: Pattern, text: string, rest: string, p: nat)
    requires p + |Opening(pt)| <= |text|
    ensures OpensAt(pt, text + rest, p) <==> OpensAt(pt, text, p)
  {
    assert (text + rest)[p..p + |Opening(pt)|] == text[p..p + |Opening(pt)|];
  }

  lemma OpeningIgnoresTheRest(pt: Pattern, prefix: string, rest: string, q: nat)
    requires |prefix + Opening(pt)| <= q <= |prefix + Opening(pt) + rest|
    ensures FirstOpening(pt, prefix + Opening(pt) + rest, 0, q) == Some(StartIn(pt, prefix))
  {
    var text := prefix + Opening(pt);
    forall p | 0 <= p <= |prefix| ensures OpensAt(pt, text + rest, p) <==> OpensAt(pt, text, p) {
      OpensInText(pt, text, rest, p);
    }
    FirstIsTheLeast(pt, text + rest, q, StartIn(pt, prefix));
  }

  lemma FirstIsTheLeast(pt: Pattern, msg: string, q: nat, p: nat)
    requires p + |Opening(pt)| <= q <= |msg| && OpensAt(pt, msg, p)
    requires forall j :: 0 <= j < p ==> !OpensAt(pt, msg, j)
    ensures FirstOpening(pt, msg, 0, q) == Some(p)
  {
    assert FirstOpening(pt, msg, 0, q).Some?;
  }

  lemma Regroup(a: string, b: string, c: string, d: string)
    ensures (a + b + c) + d == a + b + (c + d)
  {}

  lemma MatchBeforeTail(pt: Pattern, prefix: string, value: string, tail: string)
    requires WellFormed(pt) && IsTail(pt, tail)
    ensures var front := prefix + Opening(pt) + value;
      Find(pt, front + tail) == Some(Match(StartIn(pt, prefix), |front|))
  {
    var front := prefix + Opening(pt) + value;
    assert (front + tail)[|front|..] == tail;
    TailIsUnique(pt, front + tail, |front|);
    Regroup(prefix, Opening(pt), value, tail);
    OpeningIgnoresTheRest(pt, prefix, value + tail, |front|);
  }

  /** The match in an error text: it starts before the value and its value ends
      where the message says. */
  lemma MatchOfErrorText(pt: Pattern, prefix: string, value: string, name: string, ending: string)
    requires WellFormed(pt) && QuoteFree(name) && IsEnding(pt, ending)
    ensures var msg := ErrorText(pt, prefix, value, name, ending);
      var q := |prefix + Opening(pt) + value|;
      && Find(pt, msg) == Some(Match(StartIn(pt, prefix), q))
      && msg[..StartIn(pt, prefix)] == prefix[..StartIn(pt, prefix)]
      && msg[q..] == Middle(pt) + name + ending
  {
    FormedTailIsTail(pt, name, ending);
    MatchBeforeTail(pt, prefix, value, Middle(pt) + name + ending);
  }

  /** A duplicate-entry text after any prefix: the value is gone, whatever it
      holds, and the key name stays. */
  lemma DuplicateEntryIsRedacted(prefix: string, value: string, key: string)
    requires QuoteFree(key)
    ensures Redact(ErrorText(DUPLICATE, prefix, value, key, "'")) ==
      Redact(prefix[..StartIn(DUPLICATE, prefix)]) + Opening(DUPLICATE) + "?" + (Middle(DUPLICATE) + key + "'")
  {
    MatchOfErrorText(DUPLICATE, prefix, value, key, "'");
  }

  /** A text that does not end with a quote is no duplicate-entry text. */
  lemma NoTailWithoutFinalQuote(pt: Pattern, msg: string)
    requires pt.row.None? && msg != [] && !IsQuote(msg[|msg| - 1])
    ensures Find(pt, msg) == None
  {
    forall q | 0 <= q <= |msg| ensures !IsTail(pt, msg[q..]) {
      if IsTail(pt, msg[q..]) {
        TailEndsWithQuote(pt, msg[q..]);
      }
    }
  }

  lemma TailEndsWithQuote(pt: Pattern, t: string)
    requires pt.row.None? && IsTail(pt, t)
    ensures t != [] && IsQuote(t[|t| - 1])
  {
    var rest := t[|Middle(pt)|..];
    var j := FirstQuote(rest);
    assert |rest[j..]| == 1 && rest[j..][0] == rest[j];
    assert rest[j] == t[|Middle(pt)| + j];
  }

  /** The same for a column value: the column name and the row number stay. */
  lemma ColumnValueIsRedacted(prefix: string, value: string, column: string, ending: string)
    requires QuoteFree(column) && IsEnding(COLUMN, ending)
    ensures Redact(ErrorText(COLUMN, prefix, value, column, ending)) ==
      Redact(prefix[..StartIn(COLUMN, prefix)]) + Opening(COLUMN) + "?" + (Middle(COLUMN) + column + ending)
  {
    MatchOfErrorText(COLUMN, prefix, value, column, ending);
    ColumnTextEndsWithDigit(COLUMN, prefix, value, column, ending);
    NoTailWithoutFinalQuote(DUPLICATE, ErrorText(COLUMN, prefix, value, column, ending));
  }

  lemma ColumnTextEndsWithDigit(pt: Pattern, prefix: string, value: string, column: string, ending: string)
    requires pt.row.Some? && IsEnding(pt, ending)
    ensures var msg := ErrorText(pt, prefix, value, column, ending);
      msg != [] && !IsQuote(msg[|msg| - 1])
  {
    var digits := ending[1..][|pt.row.value|..];
    assert ending[|ending| - 1] == digits[|digits| - 1];
  }

  /** Non-interference: no bit of the value reaches the log. */
  lemma RedactionIgnoresTheValue(prefix: string, v1: string, v2: string, name: string, ending: string)
    requires QuoteFree(name)
    ensures Redact(ErrorText(DUPLICATE, prefix, v1, name, "'")) == Redact(ErrorText(DUPLICATE, prefix, v2, name, "'"))
    ensures IsEnding(COLUMN, ending) ==>
      Redact(ErrorText(COLUMN, prefix, v1, name, ending)) == Redact(ErrorText(COLUMN, prefix, v2, name, ending))
  {
    DuplicateEntryIsRedacted(prefix, v1, name);
    DuplicateEntryIsRedacted(prefix, v2, name);
    if IsEnding(COLUMN, ending) {
      ColumnValueIsRedacted(prefix, v1, name, ending);
      ColumnValueIsRedacted(prefix, v2, name, ending);
    }
  }

  lemma QuoteFreeTextStays(text: string)
    requires QuoteFree(text)
    ensures Redact(text) == text
  {
    NoMatchWithoutQuotes(DUPLICATE, text);
    NoMatchWithoutQuotes(COLUMN, text);
  }

  lemma NoMatchWithoutQuotes(pt: Pattern, text: string)
    requires QuoteFree(text)
    ensures Find(pt, text) == None
  {
    forall q | 0 <= q <= |text| ensures !IsTail(pt, text[q..]) {
      var n := |Middle(pt)|;
      if n <= |text[q..]| {
        assert text[q..][..n][0] == text[q];
      }
    }
  }

  lemma StartOfQuoteFreePrefix(pt: Pattern, prefix: string)
    requires QuoteFree(prefix) && QuoteFree(pt.opening)
    ensures StartIn(pt, prefix) == |prefix|
  {
    var p := StartIn(pt, prefix);
    var text := prefix + Opening(pt);
    var n := |Opening(pt)|;
    assert text[p..p + n][n - 1] == text[p + n - 1];
    assert forall j :: 0 <= j < |prefix + pt.opening| ==> text[j] == (prefix + pt.opening)[j];
  }

  lemma DuplicateOpeningIsQuoteFree()
    ensures QuoteFree(DUPLICATE.opening)
  {}

  lemma RedactedPrefixStays(pt: Pattern, prefix: string)
    requires QuoteFree(prefix) && QuoteFree(pt.opening)
    ensures Redact(prefix[..StartIn(pt, prefix)]) == prefix
  {
    StartOfQuoteFreePrefix(pt, prefix);
    assert prefix[..|prefix|] == prefix;
    QuoteFreeTextStays(prefix);
  }

  /** The usual message: a quote-free prefix stays as it is. */
  lemma UsualDuplicateEntry(prefix: string, value: string, key: string)
    requires QuoteFree(prefix) && QuoteFree(key)
    ensures Redact(ErrorText(DUPLICATE, prefix, value, key, "'")) ==
      prefix + Opening(DUPLICATE) + "?" + (Middle(DUPLICATE) + key + "'")
  {
    DuplicateOpeningIsQuoteFree();
    RedactedPrefixStays(DUPLICATE, prefix);
    DuplicateEntryIsRedacted(prefix, value, key);
  }

  // ----- The message texts -----

  lemma DuplicateTexts()
    ensures Opening(DUPLICATE) == "Duplicate entry '" && Middle(DUPLICATE) == "' for key '"
  {}

  lemma ColumnTexts()
    ensures Opening(COLUMN) == " value: '" && Middle(COLUMN) == "' for column '" && COLUMN.row == Some(" at row ")
  {}

  lemma Regrouped(p: string, o: string, v: string, m: string, n: string, e: string)
    ensures p + o + v + m + n + e == (p + o + v) + (m + n + e)
  {}

  lemma RegroupedShown(p: string, o: string, m: string, n: string, e: string)
    ensures p + o + "?" + (m + n + e) == p + o + "?" + m + n + e
  {}

  /** Error 1062 as MySQL writes it. */
  lemma DuplicateEntryMessage(prefix: string, value: string, key: string)
    requires QuoteFree(prefix) && QuoteFree(key)
    ensures Redact(prefix + "Duplicate entry '" + value + "' for key '" + key + "'")
         == prefix + "Duplicate entry '" + "?" + "' for key '" + key + "'"
  {
    DuplicateTexts();
    Regrouped(prefix, "Duplicate entry '", value, "' for key '", key, "'");
    RegroupedShown(prefix, "Duplicate entry '", "' for key '", key, "'");
    UsualDuplicateEntry(prefix, value, key);
  }

  lemma ColumnOpeningIsQuoteFree()
    ensures QuoteFree(COLUMN.opening)
  {}

  lemma RowIsEnding(digits: string)
    requires digits != [] && forall i :: 0 <= i < |digits| ==> '0' <= digits[i] <= '9'
    ensures IsEnding(COLUMN, "' at row " + digits)
  {
    var e := "' at row " + digits;
    assert e[1..][..8] == " at row " && e[1..][8..] == digits;
  }

  /** Errors 1292 and 1366 as MySQL writes them. */
  lemma ColumnValueMessage(prefix: string, value: string, column: string, digits: string)
    requires QuoteFree(prefix) && QuoteFree(column)
    requires digits != [] && forall i :: 0 <= i < |digits| ==> '0' <= digits[i] <= '9'
    ensures Redact(prefix + " value: '" + value + "' for column '" + column + ("' at row " + digits))
         == prefix + " value: '" + "?" + "' for column '" + column + ("' at row " + digits)
  {
    var ending := "' at row " + digits;
    RowIsEnding(digits);
    ColumnTexts();
    Regrouped(prefix, " value: '", value, "' for column '", column, ending);
    RegroupedShown(prefix, " value: '", "' for column '", column, ending);
    ColumnOpeningIsQuoteFree();
    RedactedPrefixStays(COLUMN, prefix);
    ColumnValueIsRedacted(prefix, value, column, ending);
  }

  /** The letters are those of ASCII: codes 65 to 90 and 97 to 122. */
  lemma LettersAreAscii(c: char)
    ensures IsLetter(c) <==> 65 <= c as int <= 90 || 97 <= c as int <= 122
  {}

  /** A quote that nothing closes hides all that follows it. */
  lemma UnclosedQuoteHidesTheRest(before: string, rest: string)
    requires QuoteFree(before) && QuoteFree(rest)
    ensures Redact(before + ['\''] + rest) == before + "'?'" <==> !(EndsWithLetter(before) && StartsWithLetter(rest))
    ensures EndsWithLetter(before) && StartsWithLetter(rest) ==>
      Redact(before + ['\''] + rest) == before + ['\''] + rest
  {
    var msg := before + ['\''] + rest;
    OneQuote(before, rest);
    PatternsAreWellFormed();
    TwoQuotesMatchNothing(DUPLICATE, msg);
    TwoQuotesMatchNothing(COLUMN, msg);
    UnmatchedIsScanned(msg);
    assert msg[..|before|] == before;
    if EndsWithLetter(before) && StartsWithLetter(rest) {
      assert msg[|before| + 1] != (before + "'?'")[|before| + 1];
    }
  }

  lemma OneQuote(before: string, rest: string)
    requires QuoteFree(before) && QuoteFree(rest)
    ensures var msg := before + ['\''] + rest;
      && Quotes(msg) == 1
      && (IsRealQuote(msg, |before|) <==> !(EndsWithLetter(before) && StartsWithLetter(rest)))
      && (forall j :: 0 <= j < |msg| && j != |before| ==> !IsQuote(msg[j]))
  {
    var msg := before + ['\''] + rest;
    QuoteFreeHasNone(before);
    QuoteFreeHasNone(rest);
    QuotesOfConcat(before + ['\''], rest);
    QuotesOfConcat(before, ['\'']);
    if before != [] { assert msg[|before| - 1] == before[|before| - 1]; }
    if rest != [] { assert msg[|before| + 1] == rest[0]; }
    assert forall j :: 0 <= j < |before| ==> msg[j] == before[j];
    assert forall j :: |before| < j < |msg| ==> msg[j] == rest[j - |before| - 1];
  }

  // ----- Other quoted text -----

  function QuotedText(before: string, value: string, after: string): string {
    before + (['\''] + value + ['\'']) + after
  }

  predicate StartsWithLetter(s: string) {
    s != [] && IsLetter(s[0])
  }

  predicate EndsWithLetter(s: string) {
    s != [] && IsLetter(s[|s| - 1])
  }

  lemma QuotedTextParts(before: string, value: string, after: string)
    requires QuoteFree(before) && QuoteFree(after)
    ensures var msg := QuotedText(before, value, after);
      var last := |before| + 1 + |value|;
      && last < |msg| && msg[..|before|] == before && msg[last + 1..] == after && msg[|before| + 1..last] == value
      && IsQuote(msg[|before|]) && IsQuote(msg[last])
      && (forall j :: 0 <= j < |before| || last < j < |msg| ==> !IsQuote(msg[j]))
  {
    var msg := QuotedText(before, value, after);
    var last := |before| + 1 + |value|;
    assert msg[..|before|] == before && msg[last + 1..] == after && msg[|before| + 1..last] == value;
    assert msg[last] == (['\''] + value + ['\''])[1 + |value|];
    assert forall j :: 0 <= j < |before| ==> msg[j] == before[j];
    assert forall j :: last < j < |msg| ==> msg[j] == after[j - last - 1];
  }

  /** The outer quotes are found, except where letters make one of them a word
      apostrophe. */
  lemma OuterQuotes(before: string, value: string, after: string)
    requires QuoteFree(before) && QuoteFree(after)
    ensures var msg := QuotedText(before, value, after);
      var last := |before| + 1 + |value|;
      && (FirstReal(msg, 0) == |before| <==> !(EndsWithLetter(before) && StartsWithLetter(value)))
      && FirstReal(msg, 0) >= |before|
      && (LastReal(msg, |msg|) == last <==> !(EndsWithLetter(value) && StartsWithLetter(after)))
      && LastReal(msg, |msg|) <= last
  {
    var msg := QuotedText(before, value, after);
    var last := |before| + 1 + |value|;
    QuotedTextParts(before, value, after);
    assert IsRealQuote(msg, |before|) <==> !(EndsWithLetter(before) && StartsWithLetter(value)) by {
      if before != [] { assert msg[|before| - 1] == msg[..|before|][|before| - 1]; }
      if value != [] { assert msg[|before| + 1] == msg[|before| + 1..last][0]; }
    }
    assert IsRealQuote(msg, last) <==> !(EndsWithLetter(value) && StartsWithLetter(after)) by {
      if value != [] { assert msg[last - 1] == msg[|before| + 1..last][|value| - 1]; }
      if after != [] { assert msg[last + 1] == msg[last + 1..][0]; }
    }
  }

  function Hidden(before: string, after: string): string {
    before + "'?'" + after
  }

  /** The scan hides exactly the value if and only if no outer quote is taken
      for an apostrophe. */
  lemma ScanHidesTheValue(before: string, value: string, after: string)
    requires QuoteFree(before) && QuoteFree(after)
    ensures RedactQuoted(QuotedText(before, value, after)) == Hidden(before, after) <==>
      && !(EndsWithLetter(before) && StartsWithLetter(value))
      && !(EndsWithLetter(value) && StartsWithLetter(after))
  {
    var msg := QuotedText(before, value, after);
    QuotedTextParts(before, value, after);
    OuterQuotes(before, value, after);
    var first := FirstReal(msg, 0);
    if first != |before| {
      ApostropheShows(before, value, after);
    } else {
      var l := LastReal(msg, |msg|);
      assert l == first || l == |before| + 1 + |value| || |msg[l + 1..]| > |after|;
      assert |Hidden(before, after)| == |before| + 3 + |after|;
    }
  }

  /** When the opening quote is taken for an apostrophe, the letter after it
      reaches the log. */
  lemma ApostropheShows(before: string, value: string, after: string)
    requires QuoteFree(before) && QuoteFree(after) && EndsWithLetter(before) && StartsWithLetter(value)
    ensures var out := RedactQuoted(QuotedText(before, value, after));
      && |out| > |before| + 1 && out[|before| + 1] == value[0]
      && out != Hidden(before, after)
  {
    var msg := QuotedText(before, value, after);
    LetterIsInFront(before, value, after);
    RedactedKeepsTheFront(msg, |before| + 1);
    LetterIsNotHidden(RedactQuoted(msg), before, after);
  }

  lemma LetterIsInFront(before: string, value: string, after: string)
    requires QuoteFree(before) && QuoteFree(after) && EndsWithLetter(before) && StartsWithLetter(value)
    ensures var msg := QuotedText(before, value, after);
      |before| + 1 < FirstReal(msg, 0) && msg[|before| + 1] == value[0]
  {
    var msg := QuotedText(before, value, after);
    QuotedTextParts(before, value, after);
    OuterQuotes(before, value, after);
    assert msg[|before| + 1] == msg[|before| + 1..|before| + 1 + |value|][0];
  }

  lemma LetterIsNotHidden(out: string, before: string, after: string)
    requires |out| > |before| + 1 && IsLetter(out[|before| + 1])
    ensures out != Hidden(before, after)
  {
    assert Hidden(before, after)[|before| + 1] == "'?'"[1];
  }

  lemma RedactedKeepsTheFront(msg: string, i: nat)
    requires i < FirstReal(msg, 0)
    ensures i < |RedactQuoted(msg)| && RedactQuoted(msg)[i] == msg[i]
  {
    assert msg[..FirstReal(msg, 0)][i] == msg[i];
  }

  /** A text with two quotes matches no pattern. */
  lemma TwoQuotesMatchNothing(pt: Pattern, msg: string)
    requires WellFormed(pt) && Quotes(msg) <= 2
    ensures Find(pt, msg).None?
  {
    forall q | 0 <= q <= |msg| ensures !IsTail(pt, msg[q..]) {
      assert msg == msg[..q] + msg[q..];
      QuotesOfConcat(msg[..q], msg[q..]);
      if IsTail(pt, msg[q..]) { TailHasThreeQuotes(pt, msg[q..]); }
    }
  }

  lemma QuotedTextHasTwoQuotes(before: string, value: string, after: string)
    requires QuoteFree(before) && QuoteFree(value) && QuoteFree(after)
    ensures Quotes(QuotedText(before, value, after)) == 2
  {
    QuoteFreeHasNone(before);
    QuoteFreeHasNone(value);
    QuoteFreeHasNone(after);
    QuotesOfConcat(before + (['\''] + value + ['\'']), after);
    QuotesOfConcat(before, ['\''] + value + ['\'']);
    QuotesOfConcat(['\''] + value, ['\'']);
    QuotesOfConcat(['\''], value);
  }

  /** The whole value shows when letters touch its opening quote: an ordinary
      value with an apostrophe in front of it reaches the log. */
  lemma ApostropheLeaks(before: string, value: string, after: string)
    requires QuoteFree(before) && QuoteFree(value) && QuoteFree(after)
    requires EndsWithLetter(before) && StartsWithLetter(value) && !(EndsWithLetter(value) && StartsWithLetter(after))
    ensures Redact(QuotedText(before, value, after)) == before + "'" + value + "'?'"
  {
    var msg := QuotedText(before, value, after);
    var last := |before| + 1 + |value|;
    QuotedTextParts(before, value, after);
    OuterQuotes(before, value, after);
    assert FirstReal(msg, 0) == last by {
      assert forall j :: |before| < j < last ==> msg[j] == value[j - |before| - 1];
    }
    assert msg[..last] == before + "'" + value;
    QuotedTextHasTwoQuotes(before, value, after);
    PatternsAreWellFormed();
    TwoQuotesMatchNothing(DUPLICATE, msg);
    TwoQuotesMatchNothing(COLUMN, msg);
    UnmatchedIsScanned(msg);
  }

  /** A message that a pattern matches keeps four quotes. */
  lemma MatchKeepsFourQuotes(pt: Pattern, msg: string, front: string)
    requires WellFormed(pt) && Find(pt, msg).Some?
    ensures Quotes(front + Opening(pt) + "?" + msg[Find(pt, msg).value.close..]) >= 4
  {
    var tail := msg[Find(pt, msg).value.close..];
    TailHasThreeQuotes(pt, tail);
    QuotesOfConcat(front + Opening(pt) + "?", tail);
    QuotesOfConcat(front + Opening(pt), "?");
    QuotesOfConcat(front, Opening(pt));
    QuotesOfConcat(pt.opening, ['\'']);
  }

  lemma PatternsAreWellFormed()
    ensures WellFormed(DUPLICATE) && WellFormed(COLUMN)
  {}

  lemma MatchedKeepsFourQuotes(msg: string)
    requires Find(DUPLICATE, msg).Some? || Find(COLUMN, msg).Some?
    ensures Quotes(Redact(msg)) >= 4
  {
    PatternsAreWellFormed();
    var dup, col := Find(DUPLICATE, msg), Find(COLUMN, msg);
    if dup.Some? {
      MatchKeepsFourQuotes(DUPLICATE, msg, Redact(msg[..dup.value.start]));
    } else {
      MatchKeepsFourQuotes(COLUMN, msg, Redact(msg[..col.value.start]));
    }
  }

  lemma UnmatchedIsScanned(msg: string)
    requires Find(DUPLICATE, msg).None? && Find(COLUMN, msg).None?
    ensures Redact(msg) == RedactQuoted(msg)
  {}

  lemma HiddenHasTwoQuotes(before: string, after: string)
    requires QuoteFree(before) && QuoteFree(after)
    ensures Quotes(Hidden(before, after)) == 2
  {
    QuotesOfConcat(before + "'?'", after);
    QuotesOfConcat(before, "'?'");
    QuotesOfConcat("'", "?'");
    QuotesOfConcat("?", "'");
    assert "'" + "?'" == "'?'" && "?" + "'" == "?'";
    QuoteFreeHasNone(before);
    QuoteFreeHasNone(after);
  }

  /** When a text with one quoted value is redacted to the text around the
      value: exactly when no pattern matches it and no letters make an outer
      quote look like an apostrophe. */
  lemma OtherQuotedTextIsRedacted(before: string, value: string, after: string)
    requires QuoteFree(before) && QuoteFree(after)
    ensures var msg := QuotedText(before, value, after);
      Redact(msg) == Hidden(before, after) <==>
        && Find(DUPLICATE, msg).None? && Find(COLUMN, msg).None?
        && !(EndsWithLetter(before) && StartsWithLetter(value))
        && !(EndsWithLetter(value) && StartsWithLetter(after))
  {
    var msg := QuotedText(before, value, after);
    if Find(DUPLICATE, msg).Some? || Find(COLUMN, msg).Some? {
      MatchedKeepsFourQuotes(msg);
      HiddenHasTwoQuotes(before, after);
    } else {
      UnmatchedIsScanned(msg);
      ScanHidesTheValue(before, value, after);
    }
  }

  /** A value that imitates a duplicate-entry message shows its last part as
      the key name. */
  function Imitation(lead: string, inner: string, secret: string): string {
    lead + Opening(DUPLICATE) + inner + Middle(DUPLICATE) + secret
  }

  lemma ImitationIsErrorText(before: string, lead: string, inner: string, secret: string)
    ensures QuotedText(before, Imitation(lead, inner, secret), "")
         == ErrorText(DUPLICATE, before + ['\''] + lead, inner, secret, "'")
  {
    RegroupImitation(before, lead, Opening(DUPLICATE), inner, Middle(DUPLICATE), secret);
  }

  lemma RegroupImitation(before: string, lead: string, o: string, inner: string, m: string, secret: string)
    ensures before + (['\''] + (lead + o + inner + m + secret) + ['\'']) + ""
         == ((before + ['\''] + lead) + o + inner) + (m + secret + "'")
  {}

  lemma RegroupShown(a: string, o: string, q: string, m: string, secret: string)
    ensures a + o + q + (m + secret + "'") == (a + o + q + m) + (secret + "'")
  {}

  /** What the log shows before the key name. */
  function Shown(prefix: string): string {
    Redact(prefix[..StartIn(DUPLICATE, prefix)]) + Opening(DUPLICATE) + "?" + Middle(DUPLICATE)
  }

  lemma NameIsShown(prefix: string, value: string, name: string)
    requires QuoteFree(name)
    ensures Redact(ErrorText(DUPLICATE, prefix, value, name, "'")) == Shown(prefix) + (name + "'")
  {
    DuplicateEntryIsRedacted(prefix, value, name);
    RegroupShown(Redact(prefix[..StartIn(DUPLICATE, prefix)]), Opening(DUPLICATE), "?", Middle(DUPLICATE), name);
  }

  lemma ImitationShows(before: string, lead: string, inner: string, secret: string)
    requires QuoteFree(secret)
    ensures Redact(QuotedText(before, Imitation(lead, inner, secret), ""))
         == Shown(before + ['\''] + lead) + (secret + "'")
  {
    ImitationIsErrorText(before, lead, inner, secret);
    NameIsShown(before + ['\''] + lead, inner, secret);
  }
}
