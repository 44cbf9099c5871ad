/** The persisted text form of a criterion list (`CriterionInstance.serialize`
    and `CriterionInstance.fromString`): one record per line, five fields per
    record joined by the serialization separator, with the separator escaped
    in the first three fields only. */
module Codec {
  import opened Base
  import opened Strings
  import opened Numbers
  import opened Criteria

  /** `SERIALIZATION_SEPARATOR` and `SEPARATOR_ESCAPE`. The separator is a
      single character; the escape token is a non-empty string. */
  datatype Tokens = Tokens(separator: char, escape: string)

  /** What the round trip needs of the two constants: distinct, the
      separator neither whitespace nor part of a number, the escape token free
      of line breaks, not starting like a number, and not overlapping itself. */
  predicate ValidTokens(tok: Tokens) {
    && !IsWhitespace(tok.separator)
    && !IsDigit(tok.separator) && tok.separator != '-'
    && |tok.escape| > 0
    && tok.separator !in tok.escape
    && ROW_SEPARATOR !in tok.escape
    && !IsDigit(tok.escape[0]) && tok.escape[0] != '-'
    && Unbordered(tok.escape)
  }

  /** Records are separated by line breaks. */
  const ROW_SEPARATOR: char := '\n'

  /** `escape`: null becomes the empty field; otherwise every separator is
      replaced by the escape token, so the field holds no separator. */
  function Escape(item: Option<string>, tok: Tokens): (r: string)
    requires |tok.escape| > 0
    ensures item.None? ==> r == []
    ensures tok.separator !in tok.escape ==> tok.separator !in r
    ensures item.Some? && ROW_SEPARATOR !in item.value && ROW_SEPARATOR !in tok.escape
      ==> ROW_SEPARATOR !in r
    ensures item.Some? && |item.value| > 0 && item.value[0] != tok.separator
      ==> |r| > 0 && r[0] == item.value[0]
  {
    match item
    case None => []
    case Some(s) =>
      ReplaceAllChar(s, tok.separator, tok.escape);
      ReplaceAll(s, [tok.separator], tok.escape)
  }

  /** `unescape`: every escape token becomes the separator again. */
  function Unescape(item: string, tok: Tokens): string
    requires |tok.escape| > 0
  {
    if |item| == 0 then [] else ReplaceAll(item, tok.escape, [tok.separator])
  }

  /** A field without the escape token is left as it is by `unescape`. */
  lemma UnescapeAbsent(item: string, tok: Tokens)
    requires |tok.escape| > 0 && !Contains(item, tok.escape)
    ensures Unescape(item, tok) == item
  {
    ReplaceAbsent(item, tok.escape, [tok.separator]);
  }

  /** Unescaping an escaped field restores it, whenever the field does not
      itself contain the escape token. */
  lemma EscapeRoundTrip(s: string, tok: Tokens)
    requires ValidTokens(tok)
    requires !Contains(s, tok.escape)
    ensures Unescape(Escape(Some(s), tok), tok) == s
  {
    ReplaceCharRoundTrip(s, tok.separator, tok.escape);
    ReplaceAllChar(s, tok.separator, tok.escape);
  }

  /** With an escape token that overlaps itself, as `!PIPE!` does, a field
      free of the token can still come back altered: `!PIPE|` is escaped to
      `!PIPE!PIPE!` and unescaped to `|PIPE!`. */
  lemma BorderedEscapeBreaksRoundTrip()
    ensures var tok := Tokens('|', "!PIPE!");
      && !Contains("!PIPE|", tok.escape)
      && Escape(Some("!PIPE|"), tok) == "!PIPE!PIPE!"
      && Unescape(Escape(Some("!PIPE|"), tok), tok) == "|PIPE!"
  {
    var tok := Tokens('|', "!PIPE!");
    ShorterNotContains("!PIPE|", tok.escape);
    EscapeTrailingSeparator("!PIPE|", "!PIPE", tok);
    PipeTwice();
    PipeUnescaped(tok);
  }

  lemma PipeTwice()
    ensures "!PIPE" + "!PIPE!" == "!PIPE!PIPE!"
  {
  }

  /** A field ending in one separator, and holding no other, is escaped by
      replacing just that last character with the escape token. */
  lemma EscapeTrailingSeparator(s: string, a: string, tok: Tokens)
    requires |tok.escape| > 0 && tok.separator !in a && s == a + [tok.separator]
    ensures Escape(Some(s), tok) == a + tok.escape
  {
    var c := tok.separator;
    ReplaceAllChar(a + [c], c, tok.escape);
    ReplaceCharAppend(a, [c], c, tok.escape);
    assert ReplaceChar([c], c, tok.escape) == tok.escape + ReplaceChar([], c, tok.escape);
  }

  lemma PipeUnescaped(tok: Tokens)
    requires tok == Tokens('|', "!PIPE!")
    ensures Unescape("!PIPE!PIPE!", tok) == "|PIPE!"
  {
    var e := "!PIPE!PIPE!";
    assert tok.escape <= e;
    assert e[6..] == "PIPE!";
    ShorterNotContains("PIPE!", tok.escape);
    ReplaceAbsent("PIPE!", tok.escape, "|");
    assert ReplaceAll(e, tok.escape, "|") == "|" + ReplaceAll(e[6..], tok.escape, "|");
  }

  lemma {:induction false} ShorterNotContains(s: string, sub: string)
    requires |s| < |sub| || (|s| == |sub| && s != sub)
    ensures !Contains(s, sub)
    decreases |s|
  {
    if |s| > 0 {
      ShorterNotContains(s[1..], sub);
    }
  }

  /** The five fields of one record, in the order
      identifier | value | text | type | sql. */
  function RecordFields(x: CriterionInstance, tok: Tokens): seq<string>
    requires |tok.escape| > 0
  {
    [ Escape(Some(x.criterion.identifier), tok),
      Escape(ValueFromCriterion(x), tok),
      Escape(Some(x.criterion.text), tok),
      IntToString(x.typeCode),
      x.criterion.sql.GetOr([]) ]
  }

  /** The instance `serialize()`: the five fields joined by the separator. */
  function SerializeInstance(x: CriterionInstance, tok: Tokens): string
    requires |tok.escape| > 0
  {
    Join(RecordFields(x, tok), tok.separator)
  }

  /** The records of a list, one per instance, in list order. */
  function Records(l: seq<CriterionInstance>, tok: Tokens): (r: seq<string>)
    requires |tok.escape| > 0
    ensures |r| == |l|
    ensures forall i :: 0 <= i < |l| ==> r[i] == SerializeInstance(l[i], tok)
  {
    seq(|l|, i requires 0 <= i < |l| => SerializeInstance(l[i], tok))
  }

  /** The list `serialize(list)`: records joined by line breaks, trimmed. */
  function Serialize(l: seq<CriterionInstance>, tok: Tokens): (r: string)
    requires |tok.escape| > 0
    ensures NoEdgeWhitespace(r)
    ensures |l| == 0 ==> r == []
  {
    Trim(Join(Records(l, tok), ROW_SEPARATOR))
  }

  /** A record splits into exactly its four escaped leading fields followed by
      the pieces of the unescaped sql field. */
  lemma SplitRecord(x: CriterionInstance, tok: Tokens)
    requires ValidTokens(tok)
    ensures var f := RecordFields(x, tok);
      Split(SerializeInstance(x, tok), tok.separator) == f[..4] + Split(f[4], tok.separator)
  {
    var f := RecordFields(x, tok);
    var c := tok.separator;
    Join5(f, c);
    assert c !in f[0] && c !in f[1] && c !in f[2] && c !in f[3];
    SplitFour(f[0], f[1], f[2], f[3], f[4], c);
    assert f[..4] == [f[0], f[1], f[2], f[3]];
  }

  /** Four delimiter-free leading pieces split off one by one. */
  lemma SplitFour(f0: string, f1: string, f2: string, f3: string, rest: string, c: char)
    requires c !in f0 && c !in f1 && c !in f2 && c !in f3
    ensures Split(f0 + [c] + (f1 + [c] + (f2 + [c] + (f3 + [c] + rest))), c)
      == [f0, f1, f2, f3] + Split(rest, c)
  {
    SplitFirstDelimiter(f3, rest, c);
    SplitFirstDelimiter(f2, f3 + [c] + rest, c);
    SplitFirstDelimiter(f1, f2 + [c] + (f3 + [c] + rest), c);
    SplitFirstDelimiter(f0, f1 + [c] + (f2 + [c] + (f3 + [c] + rest)), c);
  }

  lemma Join5(f: seq<string>, c: char)
    requires |f| == 5
    ensures Join(f, c) == f[0] + [c] + (f[1] + [c] + (f[2] + [c] + (f[3] + [c] + f[4])))
  {
    assert f[1..][1..] == f[2..] && f[2..][1..] == f[3..] && f[3..][1..] == f[4..];
    assert Join(f[4..], c) == f[4];
    assert Join(f[3..], c) == f[3] + [c] + f[4];
    assert Join(f[2..], c) == f[2] + [c] + Join(f[3..], c);
    assert Join(f[1..], c) == f[1] + [c] + Join(f[2..], c);
  }

  /** Every record has exactly five separator-delimited fields, in the order
      identifier | value | text | type | sql, unless the sql field, which is
      not escaped, itself contains the separator; then it has more. */
  lemma RecordFieldCount(x: CriterionInstance, tok: Tokens)
    requires ValidTokens(tok)
    ensures tok.separator !in x.criterion.sql.GetOr([]) ==>
      Split(SerializeInstance(x, tok), tok.separator) == RecordFields(x, tok)
    ensures tok.separator in x.criterion.sql.GetOr([]) ==>
      |Split(SerializeInstance(x, tok), tok.separator)| > 5
  {
    var f := RecordFields(x, tok);
    SplitRecord(x, tok);
    if tok.separator !in f[4] {
      SplitNoDelimiter(f[4], tok.separator);
    } else {
      var p := Split(f[4], tok.separator);
      assert |p| != 1;
    }
  }

  // ---------------------------------------------------------------- decoding

  /** The criteria catalog (`FilterCriteriaProvider.getFilterCriteria`):
      the criterion for an identifier, or none when it is unknown. */
  type Catalog = string -> Option<CustomFilterCriterion>

  /** The UUID generator: the id the `n`-th decoded instance receives. */
  type IdSource = nat -> string

  /** What one line decodes to. */
  datatype RowOutcome = Row(instance: CriterionInstance) | BadFieldCount | RowThrew(error: Exception)

  /** What the lines decode to: every instance, the early "invalid row"
      return, or the exception that escaped. */
  datatype RowsOutcome = Rows(instances: seq<CriterionInstance>) | Corrupt | Thrown(error: Exception)

  function UnescapeAll(fields: seq<string>, tok: Tokens): (r: seq<string>)
    requires |tok.escape| > 0
    ensures |r| == |fields|
    ensures forall i :: 0 <= i < |fields| ==> r[i] == Unescape(fields[i], tok)
  {
    seq(|fields|, i requires 0 <= i < |fields| => Unescape(fields[i], tok))
  }

  /** The unescaped fields of a line. */
  function RowFields(row: string, tok: Tokens): (r: seq<string>)
    requires |tok.escape| > 0
    ensures |r| == |Split(row, tok.separator)|
  {
    UnescapeAll(Split(row, tok.separator), tok)
  }

  /** The selection a persisted value restores: the typed text for a text
      input, and the first index of the value among the entry values of a
      multiple-select criterion, -1 when absent or when there are none. */
  function RestoredSelection(k: Kind, value: string): (r: (int, Option<string>))
    ensures k.TextInput? ==> r == (-1, Some(value))
    ensures k.MultipleSelect? && k.entryValues.Some? ==>
      r.1.None? && r.0 < |k.entryValues.value| && (r.0 == -1 <==> value !in k.entryValues.value)
      && (r.0 >= 0 ==> k.entryValues.value[r.0] == value)
    ensures k.MultipleSelect? && k.entryValues.None? ==> r == (-1, None)
    ensures k.Boolean? ==> r == (-1, None)
  {
    match k
    case TextInput(_) => (-1, Some(value))
    case MultipleSelect(_, values) =>
      if values.Some? then (IndexOf(values.value, value), None) else (-1, None)
    case Boolean => (-1, None)
  }

  /** The value an instance persists restores its selection: the typed text
      of a text input, nothing for a boolean, and for a multiple-select an
      entry with the same value at or before the selected one (the first
      such entry). */
  lemma ValueRestores(x: CriterionInstance)
    requires x.typeCode != TYPE_UNIVERSE && ValueFromCriterion(x).Some?
    ensures x.criterion.kind.TextInput? ==>
      RestoredSelection(x.criterion.kind, ValueFromCriterion(x).value) == (-1, x.selectedText)
    ensures x.criterion.kind.Boolean? ==>
      RestoredSelection(x.criterion.kind, ValueFromCriterion(x).value) == (-1, None)
    ensures x.criterion.kind.MultipleSelect? && x.criterion.kind.entryValues.None? ==>
      RestoredSelection(x.criterion.kind, ValueFromCriterion(x).value) == (-1, None)
    ensures x.criterion.kind.MultipleSelect? && IndexIn(x.selectedIndex, x.criterion.kind.entryValues) ==>
      var values := x.criterion.kind.entryValues.value;
      var r := RestoredSelection(x.criterion.kind, ValueFromCriterion(x).value);
      && r.1.None? && 0 <= r.0 <= x.selectedIndex
      && values[r.0] == values[x.selectedIndex]
  {
    ValueSpec(x);
    var k := x.criterion.kind;
    if k.MultipleSelect? && IndexIn(x.selectedIndex, k.entryValues) {
      var values := k.entryValues.value;
      var v := ValueFromCriterion(x).value;
      var r := RestoredSelection(k, v);
      assert values[x.selectedIndex] == v;
    }
  }

  /** One line of `fromString`: split and unescape, reject a field count other
      than 4 or 5, resolve the criterion (an unknown identifier escapes as an
      exception), restore the selection, parse the type (a non-numeric type
      escapes as an exception), then read the fifth field, which a four-field
      line lacks. */
  function DecodeRow(row: string, catalog: Catalog, id: string, tok: Tokens): (r: RowOutcome)
    requires |tok.escape| > 0
    ensures var n := |Split(row, tok.separator)|; (n != 4 && n != 5) <==> r.BadFieldCount?
    ensures |Split(row, tok.separator)| == 4 ==> r.RowThrew?
    ensures r.Row? ==> |Split(row, tok.separator)| == 5
    ensures r.Row? ==>
      var f := RowFields(row, tok);
      && catalog(f[0]).Some?
      && r.instance.criterion == catalog(f[0]).value.(sql := Some(f[4]))
      && ToInt(f[3]) == Success(r.instance.typeCode)
      && (r.instance.selectedIndex, r.instance.selectedText) == RestoredSelection(r.instance.criterion.kind, f[1])
      && r.instance.id == id
      && r.instance.start == 0 && r.instance.end == 0 && r.instance.max == 0
    ensures r.RowThrew? && catalog(RowFields(row, tok)[0]).None? ==>
      r.error == UnknownCriterionException(RowFields(row, tok)[0])
    ensures r.RowThrew? && catalog(RowFields(row, tok)[0]).Some? && ToInt(RowFields(row, tok)[3]).Failure? ==>
      r.error == NumberFormatException(RowFields(row, tok)[3])
  {
    var f := RowFields(row, tok);
    if |f| != 4 && |f| != 5 then BadFieldCount
    else match catalog(f[0])
      case None => RowThrew(UnknownCriterionException(f[0]))
      case Some(c) =>
        var sel := RestoredSelection(c.kind, f[1]);
        match ToInt(f[3])
        case Failure(e) => RowThrew(e)
        case Success(t) =>
          if |f| == 4 then RowThrew(IndexOutOfBoundsException(4))
          else Row(CriterionInstance(c.(sql := Some(f[4])), sel.0, sel.1, t, 0, 0, 0, id))
  }

  /** Every line decoded on its own; line `i` receives the `i`-th id. */
  function DecodeLines(rows: seq<string>, catalog: Catalog, ids: IdSource, tok: Tokens): (r: seq<RowOutcome>)
    requires |tok.escape| > 0
    ensures |r| == |rows|
    ensures forall i :: 0 <= i < |rows| ==> r[i] == DecodeRow(rows[i], catalog, ids(i), tok)
  {
    seq(|rows|, i requires 0 <= i < |rows| => DecodeRow(rows[i], catalog, ids(i), tok))
  }

  /** The row loop of `fromString`: the instances when every line decodes,
      otherwise the outcome of the first line that does not. */
  function Collect(outs: seq<RowOutcome>): (r: RowsOutcome)
    ensures r.Rows? ==> |r.instances| == |outs|
    ensures r.Rows? ==> forall i :: 0 <= i < |outs| ==> outs[i] == Row(r.instances[i])
  {
    if |outs| == 0 then Rows([])
    else match outs[0]
      case BadFieldCount => Corrupt
      case RowThrew(e) => Thrown(e)
      case Row(x) =>
        match Collect(outs[1..])
        case Rows(rest) =>
          assert forall i :: 1 <= i < |outs| ==> outs[i] == outs[1..][i - 1];
          Rows([x] + rest)
        case Corrupt => Corrupt
        case Thrown(e) => Thrown(e)
  }

  /** The lines `fromString` decodes: the trimmed text split at line breaks. */
  function Lines(s: string): (r: seq<string>)
    ensures |r| > 0
  {
    Split(Trim(s), ROW_SEPARATOR)
  }

  /** `fromString`: the empty text is the empty list; otherwise every line
      decodes, or the first line with a bad field count turns the whole
      result into the empty list, or an exception escapes. */
  function FromString(s: string, catalog: Catalog, ids: IdSource, tok: Tokens): (r: Result<seq<CriterionInstance>>)
    requires |tok.escape| > 0
    ensures r.Success? && |r.value| > 0 ==> |s| > 0 && |r.value| == |Lines(s)|
    ensures r.Success? && |r.value| > 0 ==> forall i :: 0 <= i < |r.value| ==>
      DecodeRow(Lines(s)[i], catalog, ids(i), tok) == Row(r.value[i])
  {
    if |s| == 0 then Success([])
    else match Collect(DecodeLines(Lines(s), catalog, ids, tok))
      case Rows(l) => Success(l)
      case Corrupt => Success([])
      case Thrown(e) => Failure(e)
  }

  /** The outcome of the first line that does not decode decides the whole
      result: a bad field count empties it, an exception escapes. Lines after
      it are never looked at. */
  lemma {:induction false} FirstBadRowDecides(outs: seq<RowOutcome>, k: nat)
    requires k < |outs|
    requires forall i :: 0 <= i < k ==> outs[i].Row?
    ensures outs[k].BadFieldCount? ==> Collect(outs) == Corrupt
    ensures outs[k].RowThrew? ==> Collect(outs) == Thrown(outs[k].error)
    decreases k
  {
    if k > 0 {
      assert outs[0].Row?;
      FirstBadRowDecides(outs[1..], k - 1);
    }
  }

  /** All-or-nothing decoding: once every line before line `k` decodes, a
      line `k` with a field count other than 4 or 5 (a blank line included)
      makes the whole result the empty list, and a four-field line `k`
      makes `fromString` fail. */
  lemma CorruptLineEmptiesResult(s: string, catalog: Catalog, ids: IdSource, tok: Tokens, k: nat)
    requires |tok.escape| > 0
    requires |s| > 0 && k < |Lines(s)|
    requires forall i :: 0 <= i < k ==> DecodeRow(Lines(s)[i], catalog, ids(i), tok).Row?
    ensures var n := |Split(Lines(s)[k], tok.separator)|;
      n != 4 && n != 5 ==> FromString(s, catalog, ids, tok) == Success([])
    ensures |Split(Lines(s)[k], tok.separator)| == 4 ==> FromString(s, catalog, ids, tok).Failure?
  {
    FirstBadRowDecides(DecodeLines(Lines(s), catalog, ids, tok), k);
  }

  /** Blank input decodes to the empty list. */
  lemma BlankDecodesEmpty(s: string, catalog: Catalog, ids: IdSource, tok: Tokens)
    requires |tok.escape| > 0
    requires IsBlank(s)
    ensures FromString(s, catalog, ids, tok) == Success([])
  {
    if |s| > 0 {
      TrimEmptyIffBlank(s);
      assert Lines(s) == [[]];
      assert Split([], tok.separator) == [[]];
      assert DecodeLines(Lines(s), catalog, ids, tok)[0].BadFieldCount?;
    }
  }

  // ------------------------------------------------------------ round trip

  /** What `fromString(serialize(...))` gives back for one instance: the
      catalog's criterion with the persisted sql (absent sql comes back
      empty), the selection restored from the persisted value (a null value
      comes back as the empty string), the type, zero counts and a fresh id. */
  function Persisted(x: CriterionInstance, id: string): (r: CriterionInstance)
    ensures r.id == id && r.typeCode == x.typeCode
    ensures r.criterion == x.criterion.(sql := Some(x.criterion.sql.GetOr([])))
    ensures r.start == 0 && r.end == 0 && r.max == 0
  {
    var sel := RestoredSelection(x.criterion.kind, ValueFromCriterion(x).GetOr([]));
    CriterionInstance(
      x.criterion.(sql := Some(x.criterion.sql.GetOr([]))),
      sel.0, sel.1, x.typeCode, 0, 0, 0, id)
  }

  /** The catalog resolves the instance's identifier to its criterion, up
      to the persisted sql template. */
  predicate CatalogAgrees(catalog: Catalog, c: CustomFilterCriterion) {
    catalog(c.identifier).Some? && catalog(c.identifier).value.(sql := c.sql) == c
  }

  /** The instance's fields survive the text form: no line breaks, no escape
      token, a type in 32-bit range, an identifier that starts with neither
      whitespace nor the separator, and an sql template free of the separator
      and not ending in whitespace. */
  predicate Encodable(x: CriterionInstance, tok: Tokens) {
    var c := x.criterion;
    var v := ValueFromCriterion(x).GetOr([]);
    var q := c.sql.GetOr([]);
    && |c.identifier| > 0 && !IsWhitespace(c.identifier[0]) && c.identifier[0] != tok.separator
    && ROW_SEPARATOR !in c.identifier && !Contains(c.identifier, tok.escape)
    && ROW_SEPARATOR !in v && !Contains(v, tok.escape)
    && ROW_SEPARATOR !in c.text && !Contains(c.text, tok.escape)
    && INT_MIN <= x.typeCode <= INT_MAX
    && tok.separator !in q && ROW_SEPARATOR !in q && !Contains(q, tok.escape)
    && (|q| == 0 || !IsWhitespace(q[|q| - 1]))
  }

  lemma {:induction false} NotContainsWithoutHead(s: string, sub: string)
    requires |sub| > 0 && sub[0] !in s
    ensures !Contains(s, sub)
    decreases |s|
  {
    if |s| > 0 {
      NotContainsWithoutHead(s[1..], sub);
    }
  }

  /** One encodable record decodes to the persisted form of its instance. */
  lemma RecordRoundTrip(x: CriterionInstance, catalog: Catalog, id: string, tok: Tokens)
    requires ValidTokens(tok) && Encodable(x, tok) && CatalogAgrees(catalog, x.criterion)
    ensures DecodeRow(SerializeInstance(x, tok), catalog, id, tok) == Row(Persisted(x, id))
  {
    var f := RecordFields(x, tok);
    var row := SerializeInstance(x, tok);
    RecordFieldCount(x, tok);
    var u := RowFields(row, tok);
    var v := ValueFromCriterion(x);
    EscapeRoundTrip(x.criterion.identifier, tok);
    EscapeRoundTrip(x.criterion.text, tok);
    if v.Some? {
      EscapeRoundTrip(v.value, tok);
    }
    assert u[1] == v.GetOr([]);
    NotContainsWithoutHead(IntToString(x.typeCode), tok.escape);
    UnescapeAbsent(f[3], tok);
    UnescapeAbsent(f[4], tok);
    assert u[3] == IntToString(x.typeCode);
    ToIntOfToString(x.typeCode);
    assert u[0] == x.criterion.identifier;
  }

  lemma {:induction false} CollectAll(outs: seq<RowOutcome>, expected: seq<CriterionInstance>)
    requires |outs| == |expected|
    requires forall i :: 0 <= i < |outs| ==> outs[i] == Row(expected[i])
    ensures Collect(outs) == Rows(expected)
    decreases |outs|
  {
    if |outs| > 0 {
      CollectAll(outs[1..], expected[1..]);
      assert expected == [expected[0]] + expected[1..];
    }
  }

  lemma {:induction false} JoinEnds(parts: seq<string>, c: char)
    requires |parts| > 0
    ensures |parts[0]| > 0 ==> |Join(parts, c)| > 0 && Join(parts, c)[0] == parts[0][0]
    ensures var last := parts[|parts| - 1]; var j := Join(parts, c);
      |last| > 0 ==> |j| > 0 && j[|j| - 1] == last[|last| - 1]
    ensures var last := parts[|parts| - 1]; var j := Join(parts, c);
      |parts| >= 2 && |last| == 0 ==> |j| > 0 && j[|j| - 1] == c
    decreases |parts|
  {
    if |parts| > 1 {
      JoinEnds(parts[1..], c);
    }
  }

  /** The joined records of encodable instances have no whitespace at either
      end, so `trim` leaves them alone, and hold no stray line break. */
  lemma RecordsShape(l: seq<CriterionInstance>, tok: Tokens)
    requires ValidTokens(tok) && |l| > 0
    requires forall i :: 0 <= i < |l| ==> Encodable(l[i], tok)
    ensures NoEdgeWhitespace(Join(Records(l, tok), ROW_SEPARATOR))
    ensures |Join(Records(l, tok), ROW_SEPARATOR)| > 0
    ensures forall i :: 0 <= i < |l| ==> ROW_SEPARATOR !in Records(l, tok)[i]
  {
    var recs := Records(l, tok);
    forall i | 0 <= i < |l|
      ensures ROW_SEPARATOR !in recs[i]
    {
      RecordAvoidsRowSeparator(l[i], tok);
    }
    var first := RecordFields(l[0], tok);
    JoinEnds(first, tok.separator);
    var last := RecordFields(l[|l| - 1], tok);
    JoinEnds(last, tok.separator);
    JoinEnds(recs, ROW_SEPARATOR);
  }

  /** The record of an encodable instance holds no line break. */
  lemma RecordAvoidsRowSeparator(x: CriterionInstance, tok: Tokens)
    requires ValidTokens(tok) && Encodable(x, tok)
    ensures ROW_SEPARATOR !in SerializeInstance(x, tok)
  {
    var f := RecordFields(x, tok);
    assert forall j :: 0 <= j < 5 ==> ROW_SEPARATOR !in f[j];
    JoinAvoids(f, tok.separator, ROW_SEPARATOR);
  }

  /** The serialized text of a non-empty encodable list is its records
      joined by line breaks, untouched by `trim`, and splits back into them. */
  lemma SerializedLines(l: seq<CriterionInstance>, tok: Tokens)
    requires ValidTokens(tok) && |l| > 0
    requires forall i :: 0 <= i < |l| ==> Encodable(l[i], tok)
    ensures |Serialize(l, tok)| > 0
    ensures Lines(Serialize(l, tok)) == Records(l, tok)
  {
    var recs := Records(l, tok);
    var j := Join(recs, ROW_SEPARATOR);
    RecordsShape(l, tok);
    assert Trim(j) == j;
    assert Serialize(l, tok) == j;
    assert Trim(Serialize(l, tok)) == j;
    SplitJoin(recs, ROW_SEPARATOR);
  }

  /** The persisted forms the records decode to. */
  function PersistedAll(l: seq<CriterionInstance>, ids: IdSource): (r: seq<CriterionInstance>)
    ensures |r| == |l|
    ensures forall i :: 0 <= i < |l| ==> r[i] == Persisted(l[i], ids(i))
  {
    seq(|l|, i requires 0 <= i < |l| => Persisted(l[i], ids(i)))
  }

  lemma DecodeRecords(l: seq<CriterionInstance>, catalog: Catalog, ids: IdSource, tok: Tokens)
    requires ValidTokens(tok)
    requires forall i :: 0 <= i < |l| ==> Encodable(l[i], tok) && CatalogAgrees(catalog, l[i].criterion)
    ensures Collect(DecodeLines(Records(l, tok), catalog, ids, tok)) == Rows(PersistedAll(l, ids))
  {
    var outs := DecodeLines(Records(l, tok), catalog, ids, tok);
    var expected := PersistedAll(l, ids);
    forall i | 0 <= i < |l|
      ensures outs[i] == Row(expected[i])
    {
      RecordRoundTrip(l[i], catalog, ids(i), tok);
    }
    CollectAll(outs, expected);
  }

  /** Round trip: decoding the serialized list gives, for every instance in
      order, its persisted form with the id the generator hands out. */
  lemma ListRoundTrip(l: seq<CriterionInstance>, catalog: Catalog, ids: IdSource, tok: Tokens)
    requires ValidTokens(tok)
    requires forall i :: 0 <= i < |l| ==> Encodable(l[i], tok) && CatalogAgrees(catalog, l[i].criterion)
    ensures FromString(Serialize(l, tok), catalog, ids, tok) == Success(PersistedAll(l, ids))
  {
    if |l| > 0 {
      SerializedLines(l, tok);
      DecodeRecords(l, catalog, ids, tok);
    }
  }

  /** An instance whose selection is already in the form the text restores:
      a set text for a text input; the first occurrence of the selected entry
      value for a multiple-select criterion with entry values; nothing
      selected otherwise. Text and multiple-select values are never those
      of the universe. */
  predicate Restorable(x: CriterionInstance) {
    && x.criterion.sql.Some?
    && match x.criterion.kind
       case TextInput(_) =>
         x.typeCode != TYPE_UNIVERSE && x.selectedText.Some? && x.selectedIndex == -1
       case MultipleSelect(_, Some(values)) =>
         && x.typeCode != TYPE_UNIVERSE && x.selectedText.None?
         && 0 <= x.selectedIndex < |values| && values[x.selectedIndex] !in values[..x.selectedIndex]
       case MultipleSelect(_, None) => x.selectedText.None? && x.selectedIndex == -1
       case Boolean => x.selectedText.None? && x.selectedIndex == -1
  }

  /** A restorable instance comes back equal to itself except for the fields
      `equals` also compares but the text does not carry: id, start, end and
      max. */
  lemma PersistedRestorable(x: CriterionInstance, id: string)
    requires Restorable(x)
    ensures Persisted(x, id) == x.(id := id, start := 0, end := 0, max := 0)
  {
    match x.criterion.kind
    case MultipleSelect(_, Some(values)) =>
      assert ValueFromCriterion(x) == Some(values[x.selectedIndex]);
    case _ =>
  }

  /** Round trip up to identity: a list of restorable, encodable instances
      decodes back to the same instances with fresh ids and zero counts. */
  lemma RoundTripUpToIdentity(l: seq<CriterionInstance>, catalog: Catalog, ids: IdSource, tok: Tokens)
    requires ValidTokens(tok)
    requires forall i :: 0 <= i < |l| ==>
      Encodable(l[i], tok) && CatalogAgrees(catalog, l[i].criterion) && Restorable(l[i])
    ensures var r := FromString(Serialize(l, tok), catalog, ids, tok);
      && r.Success? && |r.value| == |l|
      && forall i :: 0 <= i < |l| ==>
           r.value[i] == l[i].(id := ids(i), start := 0, end := 0, max := 0)
  {
    ListRoundTrip(l, catalog, ids, tok);
    forall i | 0 <= i < |l| {
      PersistedRestorable(l[i], ids(i));
    }
  }
}
