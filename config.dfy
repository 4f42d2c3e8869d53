/**
 * The parser of the `items` value of the launcher's configuration: one application per
 * line, `exe | key=value | key=value ...`, with `#` and `;` comment lines.
 */
module Config {
  import opened Wrappers
  import opened Text

  /** One configured application, as `read_config` hands it to the rest of the launcher. */
  datatype AppRecord = AppRecord(exe: string, args: string, title: string, icon: string, elevated: bool)

  /** A `key=value` field after splitting at its first `=`. */
  datatype Field = Field(key: string, value: string)

  /** The keys every record's option dictionary starts with, each mapped to "". */
  const DefaultKeys: set<string> := {"args", "title", "icon", "elevated"}

  /** The values that make `elevated` true, compared after lower-casing. */
  const TruthyWords: set<string> := {"1", "true", "yes", "y", "on"}

  predicate Truthy(v: string) {
    Lower(v) in TruthyWords
  }

  /** A line is an entry when its stripped text is non-empty and not a `#` or `;` comment. */
  predicate IsEntryLine(ln: string) {
    var t := Strip(ln);
    t != [] && t[0] != '#' && t[0] != ';'
  }

  /** The stripped entry lines, in order (the list comprehension of `read_config`). */
  function Keep(lines: seq<string>): (r: seq<string>)
    ensures |r| <= |lines|
    ensures forall k :: 0 <= k < |r| ==>
      r[k] != [] && r[k][0] != '#' && r[k][0] != ';' && Strip(r[k]) == r[k]
  {
    if lines == [] then []
    else if IsEntryLine(lines[0]) then
      StripIdempotent(lines[0]);
      [Strip(lines[0])] + Keep(lines[1..])
    else Keep(lines[1..])
  }

  function EntryLines(raw: string): seq<string> {
    Keep(SplitLines(raw))
  }

  /** Filtering the lines of a concatenation filters each half: order is kept, nothing is merged. */
  lemma {:induction false} KeepAppend(a: seq<string>, b: seq<string>)
    ensures Keep(a + b) == Keep(a) + Keep(b)
    decreases |a|
  {
    if a != [] {
      assert (a + b)[0] == a[0];
      assert (a + b)[1..] == a[1..] + b;
      KeepAppend(a[1..], b);
      if IsEntryLine(a[0]) {
        var x := [Strip(a[0])];
        assert Keep(a + b) == x + Keep(a[1..] + b);
        assert Keep(a) == x + Keep(a[1..]);
        assert x + (Keep(a[1..]) + Keep(b)) == (x + Keep(a[1..])) + Keep(b);
      } else {
        assert Keep(a + b) == Keep(a[1..] + b);
        assert Keep(a) == Keep(a[1..]);
      }
    } else {
      assert a + b == b;
    }
  }

  /** Each line contributes its stripped self when it is an entry, and nothing otherwise. */
  lemma KeepOne(ln: string)
    ensures Keep([ln]) == if IsEntryLine(ln) then [Strip(ln)] else []
  {
    assert [ln][1..] == [];
  }

  /** The `|`-separated fields of a line, each stripped. */
  function Parts(line: string): (r: seq<string>)
    ensures |r| >= 1
  {
    var ps := SplitOn(line, '|');
    seq(|ps|, i requires 0 <= i < |ps| => Strip(ps[i]))
  }

  /** A field split at its first `=`, key stripped and lower-cased, value stripped; None without `=`. */
  function FieldOf(p: string): Option<Field> {
    var i := IndexOf(p, '=');
    if i == |p| then None else Some(Field(Lower(Strip(p[..i])), Strip(p[i + 1..])))
  }

  predicate DefinesKey(p: string, key: string) {
    FieldOf(p).Some? && FieldOf(p).value.key == key
  }

  /** The value of the last field that sets `key`, if any. */
  function LastField(fields: seq<string>, key: string): Option<string>
    decreases |fields|
  {
    if fields == [] then None
    else
      var p := fields[|fields| - 1];
      if DefinesKey(p, key) then Some(FieldOf(p).value.value)
      else LastField(fields[..|fields| - 1], key)
  }

  /** The value a record sees for `key`: the last assignment, or "" by default. */
  function FieldValue(fields: seq<string>, key: string): string {
    LastField(fields, key).GetOr("")
  }

  /** The record `read_config` builds from one entry line. */
  function RecordOf(line: string): AppRecord {
    var ps := Parts(line);
    var fs := ps[1..];
    AppRecord(ps[0], FieldValue(fs, "args"), FieldValue(fs, "title"), FieldValue(fs, "icon"),
              Truthy(FieldValue(fs, "elevated")))
  }

  /** The field that a lookup finds: it sets the key, and no later field does. */
  lemma {:induction false} LastFieldWitness(fields: seq<string>, key: string) returns (i: nat)
    requires LastField(fields, key).Some?
    ensures i < |fields| && FieldOf(fields[i]) == Some(Field(key, LastField(fields, key).value))
    ensures forall j :: i < j < |fields| ==> !DefinesKey(fields[j], key)
    decreases |fields|
  {
    var n := |fields| - 1;
    if DefinesKey(fields[n], key) {
      i := n;
    } else {
      var init := fields[..n];
      i := LastFieldWitness(init, key);
      assert fields[i] == init[i];
      forall j | i < j < |fields| ensures !DefinesKey(fields[j], key) {
        if j < n { assert fields[j] == init[j]; }
      }
    }
  }

  /** A field that sets the key with no later field setting it is the one a lookup finds. */
  lemma {:induction false} LastFieldAt(fields: seq<string>, key: string, v: string, i: nat)
    requires i < |fields| && FieldOf(fields[i]) == Some(Field(key, v))
    requires forall j :: i < j < |fields| ==> !DefinesKey(fields[j], key)
    ensures LastField(fields, key) == Some(v)
    decreases |fields|
  {
    var n := |fields| - 1;
    if i < n {
      var init := fields[..n];
      assert !DefinesKey(fields[n], key);
      assert init[i] == fields[i];
      forall j | i < j < n ensures !DefinesKey(init[j], key) {
        assert init[j] == fields[j];
      }
      LastFieldAt(init, key, v, i);
    }
  }

  /** A later field overrides an earlier one: the value found is that of the last field with the key. */
  lemma LastFieldIsLastOccurrence(fields: seq<string>, key: string, v: string)
    ensures LastField(fields, key) == Some(v) <==>
      exists i :: 0 <= i < |fields| && FieldOf(fields[i]) == Some(Field(key, v)) &&
        forall j :: i < j < |fields| ==> !DefinesKey(fields[j], key)
  {
    if LastField(fields, key) == Some(v) {
      var i := LastFieldWitness(fields, key);
    }
    if exists i :: 0 <= i < |fields| && FieldOf(fields[i]) == Some(Field(key, v)) &&
        forall j :: i < j < |fields| ==> !DefinesKey(fields[j], key) {
      var i :| 0 <= i < |fields| && FieldOf(fields[i]) == Some(Field(key, v)) &&
        forall j :: i < j < |fields| ==> !DefinesKey(fields[j], key);
      LastFieldAt(fields, key, v, i);
    }
  }

  /** Appending a field changes the lookup of exactly the key it sets. */
  lemma LastFieldSnoc(fields: seq<string>, p: string, key: string)
    ensures LastField(fields + [p], key) ==
      if DefinesKey(p, key) then Some(FieldOf(p).value.value) else LastField(fields, key)
  {
    assert (fields + [p])[..|fields|] == fields;
  }

  /** A field without `=` is ignored. */
  lemma FieldWithoutEqualsIgnored(fields: seq<string>, p: string, key: string)
    requires '=' !in p
    ensures FieldOf(p) == None
    ensures LastField(fields + [p], key) == LastField(fields, key)
  {
    assert IndexOf(p, '=') == |p|;
    assert (fields + [p])[..|fields|] == fields;
  }

  /** The text `key=value`. */
  function Assign(key: string, v: string): string {
    key + ['='] + v
  }

  /**
   * A field is split at its first `=`: the text before it, stripped and lower-cased, is the
   * key, and everything after it, stripped, is the value, `=` signs included.
   */
  lemma FieldOfAssign(k: string, v: string)
    requires '=' !in k
    ensures FieldOf(Assign(k, v)) == Some(Field(Lower(Strip(k)), Strip(v)))
  {
    var p := Assign(k, v);
    IndexOfAt(k, '=', v);
    assert p[..|k|] == k;
    assert p[|k| + 1..] == v;
  }

  /** `key=value` parses back to its key and value, also when the value itself contains `=`. */
  lemma FieldRoundTrip(key: string, v: string)
    requires '=' !in key && Trimmed(key) && NoUpper(key) && Trimmed(v)
    ensures FieldOf(Assign(key, v)) == Some(Field(key, v))
  {
    StripIsNoop(key);
    StripIsNoop(v);
    var p := Assign(key, v);
    IndexOfAt(key, '=', v);
    assert p[..|key|] == key;
    assert p[|key| + 1..] == v;
    LowerNoUpper(key);
    assert FieldOf(p) == Some(Field(key, v));
  }

  /**
   * The option loop of `read_config`: start from the four default keys and let every field
   * with an `=` set its key. Afterwards every key present is a default key or one some field
   * set, and its value is that of the last field that set it, or "".
   */
  method ParseFields(fields: seq<string>) returns (meta: map<string, string>)
    ensures forall k :: k in meta <==> k in DefaultKeys || LastField(fields, k).Some?
    ensures forall k :: k in meta ==> meta[k] == FieldValue(fields, k)
  {
    meta := map["args" := "", "title" := "", "icon" := "", "elevated" := ""];
    var i := 0;
    while i < |fields|
      invariant 0 <= i <= |fields|
      invariant forall k :: k in meta <==> k in DefaultKeys || LastField(fields[..i], k).Some?
      invariant forall k :: k in meta ==> meta[k] == FieldValue(fields[..i], k)
    {
      var p := fields[i];
      var eq := IndexOf(p, '=');
      if eq < |p| {
        var k, v := p[..eq], p[eq + 1..];
        meta := meta[Lower(Strip(k)) := Strip(v)];
      }
      assert fields[..i + 1] == fields[..i] + [p];
      forall key: string
        ensures LastField(fields[..i + 1], key) ==
          if DefinesKey(p, key) then Some(FieldOf(p).value.value) else LastField(fields[..i], key)
      {
        LastFieldSnoc(fields[..i], p, key);
      }
      i := i + 1;
    }
    assert fields[..|fields|] == fields;
  }

  /**
   * The `items` part of `read_config`: every entry line of `raw` yields exactly one record, in
   * order, with the first `|` field as `exe` and the options as parsed by `ParseFields`.
   */
  method ReadItems(raw: string) returns (apps: seq<AppRecord>)
    ensures |apps| == |EntryLines(raw)|
    ensures forall i :: 0 <= i < |apps| ==> apps[i] == RecordOf(EntryLines(raw)[i])
  {
    var lines := EntryLines(raw);
    apps := [];
    var i := 0;
    while i < |lines|
      invariant 0 <= i <= |lines|
      invariant |apps| == i
      invariant forall j :: 0 <= j < i ==> apps[j] == RecordOf(lines[j])
    {
      var parts := Parts(lines[i]);
      var exe := parts[0];
      var meta := ParseFields(parts[1..]);
      assert "args" in DefaultKeys && "title" in DefaultKeys && "icon" in DefaultKeys && "elevated" in DefaultKeys;
      apps := apps + [AppRecord(exe, meta["args"], meta["title"], meta["icon"], Truthy(meta["elevated"]))];
      i := i + 1;
    }
  }

  // ---- Writing records back as lines, and reading them again ----

  function ElevatedText(b: bool): string {
    if b then "1" else "0"
  }

  /** The fields of a record as `exe|args=..|title=..|icon=..|elevated=..` would hold them. */
  function RecordParts(r: AppRecord): seq<string> {
    [r.exe, Assign("args", r.args), Assign("title", r.title), Assign("icon", r.icon),
     Assign("elevated", ElevatedText(r.elevated))]
  }

  function FormatLine(r: AppRecord): string {
    JoinWith(RecordParts(r), '|')
  }

  function FormatItems(rs: seq<AppRecord>): string {
    JoinWith(seq(|rs|, i requires 0 <= i < |rs| => FormatLine(rs[i])), '\n')
  }

  /** A text field that survives a round trip: no whitespace at either end, no `|`, no line break. */
  predicate PlainText(s: string) {
    Trimmed(s) && '|' !in s && NoBreaks(s)
  }

  /** A record that can be written as one entry line and read back unchanged. */
  predicate Writable(r: AppRecord) {
    PlainText(r.exe) && PlainText(r.args) && PlainText(r.title) && PlainText(r.icon) &&
    (r.exe == [] || (r.exe[0] != '#' && r.exe[0] != ';'))
  }

  /** The keys of the written fields: non-empty, lower-case ASCII letters only. */
  predicate Keyword(key: string) {
    key != [] && forall i :: 0 <= i < |key| ==> 'a' <= key[i] <= 'z'
  }

  /** A plain value assigned to a keyword stays plain. */
  lemma PlainAssign(key: string, v: string)
    requires Keyword(key) && PlainText(v)
    ensures PlainText(Assign(key, v))
  {
    var p := Assign(key, v);
    assert p[0] == key[0];
    assert v == [] ==> p[|p| - 1] == '=';
    assert v != [] ==> p[|p| - 1] == v[|v| - 1];
    forall ch | ch in p ensures !IsLineBreak(ch) && ch != '|' {
      if ch in key {
        var i :| 0 <= i < |key| && key[i] == ch;
      }
    }
  }

  lemma PlainTextParts(r: AppRecord)
    requires Writable(r)
    ensures var rp := RecordParts(r);
      |rp| == 5 && forall k :: 0 <= k < 5 ==> PlainText(rp[k])
  {
    var rp := RecordParts(r);
    assert PlainText(rp[1]) by { PlainAssign("args", r.args); }
    assert PlainText(rp[2]) by { PlainAssign("title", r.title); }
    assert PlainText(rp[3]) by { PlainAssign("icon", r.icon); }
    assert PlainText(rp[4]) by {
      var e := ElevatedText(r.elevated);
      assert PlainText(e);
      PlainAssign("elevated", e);
    }
  }

  /** The stripped, `|`-split fields of a written record are exactly its parts. */
  lemma PartsOfFormatLine(r: AppRecord)
    requires Writable(r)
    ensures Parts(FormatLine(r)) == RecordParts(r)
  {
    var rp := RecordParts(r);
    PlainTextParts(r);
    assert SplitOn(FormatLine(r), '|') == rp by { SplitOnJoin(rp, '|'); }
  }

  /** A keyword assigned a value without surrounding whitespace parses back to both. */
  lemma KeywordFieldRoundTrip(key: string, v: string)
    requires Keyword(key) && Trimmed(v)
    ensures FieldOf(Assign(key, v)) == Some(Field(key, v))
  {
    assert forall i :: 0 <= i < |key| ==> key[i] != '=' && !IsSpace(key[i]);
    FieldRoundTrip(key, v);
  }

  /** The keys of the four written fields, in the order `FormatLine` writes them. */
  const WrittenKeys: seq<string> := ["args", "title", "icon", "elevated"]

  function WrittenValues(r: AppRecord): seq<string> {
    [r.args, r.title, r.icon, ElevatedText(r.elevated)]
  }

  /** Each written `key=value` field reads back as that key and value. */
  lemma WrittenField(r: AppRecord, i: nat)
    requires Trimmed(r.args) && Trimmed(r.title) && Trimmed(r.icon) && i < 4
    ensures FieldOf(RecordParts(r)[i + 1]) == Some(Field(WrittenKeys[i], WrittenValues(r)[i]))
  {
    KeywordFieldRoundTrip(WrittenKeys[i], WrittenValues(r)[i]);
  }

  /** When every field parses and no two share a key, each key is found with its own value. */
  lemma DistinctKeysFound(fs: seq<string>, keys: seq<string>, vals: seq<string>, i: nat)
    requires |fs| == |keys| == |vals| && i < |fs|
    requires forall j :: 0 <= j < |fs| ==> FieldOf(fs[j]) == Some(Field(keys[j], vals[j]))
    requires forall j, k :: 0 <= j < k < |keys| ==> keys[j] != keys[k]
    ensures LastField(fs, keys[i]) == Some(vals[i])
  {
    forall j | i < j < |fs| ensures !DefinesKey(fs[j], keys[i]) {
    }
    LastFieldAt(fs, keys[i], vals[i], i);
  }

  /** A lookup in the written fields finds each of the record's values. */
  lemma WrittenValuesFound(r: AppRecord)
    requires Writable(r)
    ensures var fs := RecordParts(r)[1..];
      LastField(fs, "args") == Some(r.args) && LastField(fs, "title") == Some(r.title) &&
      LastField(fs, "icon") == Some(r.icon) && LastField(fs, "elevated") == Some(ElevatedText(r.elevated))
  {
    var fs := RecordParts(r)[1..];
    var vs := WrittenValues(r);
    forall j | 0 <= j < 4 ensures FieldOf(fs[j]) == Some(Field(WrittenKeys[j], vs[j])) {
      WrittenField(r, j);
    }
    DistinctKeysFound(fs, WrittenKeys, vs, 0);
    DistinctKeysFound(fs, WrittenKeys, vs, 1);
    DistinctKeysFound(fs, WrittenKeys, vs, 2);
    DistinctKeysFound(fs, WrittenKeys, vs, 3);
  }

  lemma RecordOfParts(line: string, ps: seq<string>)
    requires Parts(line) == ps
    ensures |ps| >= 1
    ensures RecordOf(line) == AppRecord(ps[0], FieldValue(ps[1..], "args"), FieldValue(ps[1..], "title"),
      FieldValue(ps[1..], "icon"), Truthy(FieldValue(ps[1..], "elevated")))
  {
  }

  /** A written record reads back as itself. */
  lemma RecordRoundTrip(r: AppRecord)
    requires Writable(r)
    ensures RecordOf(FormatLine(r)) == r
  {
    PartsOfFormatLine(r);
    RecordOfParts(FormatLine(r), RecordParts(r));
    WrittenValuesFound(r);
    var e := ElevatedText(r.elevated);
    assert Lower(e) == e by { LowerNoUpper(e); }
  }

  /** A written record is one entry line: no line break, not blank, not a comment, already stripped. */
  lemma FormatLineIsEntry(r: AppRecord)
    requires Writable(r)
    ensures var ln := FormatLine(r);
      ln != [] && NoBreaks(ln) && IsEntryLine(ln) && Strip(ln) == ln
  {
    var rp := RecordParts(r);
    var ln := FormatLine(r);
    PlainTextParts(r);
    JoinWithFirst(rp, '|');
    JoinWithLast(rp, '|');
    assert !IsSpace(ln[0]) by { StripIsNoop(r.exe); }
    assert Strip(ln) == ln by { StripIsNoop(ln); }
    forall ch | ch in ln ensures !IsLineBreak(ch) {
      JoinWithChars(rp, '|', ch);
    }
  }

  lemma {:induction false} KeepEntries(lines: seq<string>)
    requires forall k :: 0 <= k < |lines| ==> IsEntryLine(lines[k]) && Strip(lines[k]) == lines[k]
    ensures Keep(lines) == lines
    decreases |lines|
  {
    if lines != [] {
      KeepEntries(lines[1..]);
    }
  }

  /**
   * Writing records one per line and reading the text again gives one entry line per record,
   * each reading back as its record.
   */
  lemma ItemsRoundTrip(rs: seq<AppRecord>)
    requires forall i :: 0 <= i < |rs| ==> Writable(rs[i])
    ensures |EntryLines(FormatItems(rs))| == |rs|
    ensures forall i :: 0 <= i < |rs| ==> RecordOf(EntryLines(FormatItems(rs))[i]) == rs[i]
  {
    var lines := seq(|rs|, i requires 0 <= i < |rs| => FormatLine(rs[i]));
    forall k | 0 <= k < |lines| ensures lines[k] != [] && NoBreaks(lines[k]) &&
      IsEntryLine(lines[k]) && Strip(lines[k]) == lines[k]
    {
      FormatLineIsEntry(rs[k]);
    }
    SplitLinesJoin(lines);
    KeepEntries(lines);
    forall i | 0 <= i < |rs| ensures RecordOf(lines[i]) == rs[i] {
      RecordRoundTrip(rs[i]);
    }
  }
}
