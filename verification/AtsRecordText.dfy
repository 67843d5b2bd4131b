/**
 The text form of the persisted ATS record (packages/qcom-time-daemon/src/qcom-time-daemon.c,
 kv_get to ats_state_save): `key=value` lines, read back by a line scanner and strtoull/strtoll.
 */
module AtsRecordText {
  import opened Numerals
  import opened Words

  const ATS_USER := 2
  const MAGIC := "qcom-ats-state"
  const VERSION := 1
  const GPS_EPOCH_OFFSET_MS := 315964800000
  const AP_CLOCK_SANITY_FLOOR_MS := 1577836800000
  const OFFSET_FLOOR_MS := AP_CLOCK_SANITY_FLOOR_MS - GPS_EPOCH_OFFSET_MS

  const KEY_MAGIC := "magic"
  const KEY_VERSION := "version"
  const KEY_BASE := "base"
  const KEY_OFFSET_MS := "offset_ms"
  const KEY_RTC_MS := "rtc_ms"
  const KEY_WALL_MS := "wall_ms"
  const KEY_DELTA_MS := "delta_ms"
  const KEY_SYNCED_AT := "synced_at"

  datatype Record = Record(base: u32, offset: u64, rtc: u64, wall: u64, delta: i64, syncedAt: u64)

  // ----- the C library on strings -----

  /** The characters before the terminating NUL. */
  function CString(s: string): (r: string)
    ensures r <= s && '\0' !in r
  {
    if s == [] || s[0] == '\0' then [] else [s[0]] + CString(s[1..])
  }

  function LineLength(s: string): (n: nat)
    ensures n <= |s| && '\n' !in s[..n] && (n < |s| ==> s[n] == '\n')
  {
    if s == [] || s[0] == '\n' then 0 else 1 + LineLength(s[1..])
  }

  predicate IsSpace(c: char) {
    c == ' ' || 9 as char <= c <= 13 as char
  }

  function SkipSpaces(s: string): string {
    if s != [] && IsSpace(s[0]) then SkipSpaces(s[1..]) else s
  }

  function DigitPrefix(s: string): (d: string)
    ensures d <= s && forall i :: 0 <= i < |d| ==> IsDigit(d[i])
  {
    if s != [] && IsDigit(s[0]) then [s[0]] + DigitPrefix(s[1..]) else []
  }

  /** Sign and magnitude as strtoull and strtoll read them; None when there is no digit. */
  function SignedNumber(s: string): Option<(bool, nat)> {
    var t := SkipSpaces(s);
    var negative := t != [] && t[0] == '-';
    var u := if t != [] && (t[0] == '-' || t[0] == '+') then t[1..] else t;
    var d := DigitPrefix(u);
    if d == [] then None else Some((negative, Value(d)))
  }

  /** strtoull with the program's check of errno and end; a minus sign wraps. */
  function Strtoull(s: string): Option<u64> {
    var n := SignedNumber(s);
    if n.None? || n.value.1 >= TWO_64 then None
    else if n.value.0 then Some((0 - n.value.1) % TWO_64) else Some(n.value.1)
  }

  function Strtoll(s: string): Option<i64> {
    var n := SignedNumber(s);
    if n.None? then None
    else if n.value.0 then (if n.value.1 <= TWO_63 then Some(0 - n.value.1) else None)
    else if n.value.1 < TWO_63 then Some(n.value.1) else None
  }

  // ----- reading -----

  /** Does the line of length n at the front of the text assign to the key? */
  predicate Assigns(text: string, n: nat, key: string)
    requires n <= |text|
  {
    n > |key| && text[..|key|] == key && text[|key|] == '='
  }

  /** The value on the first line that begins with the key and an equals sign. */
  function Lookup(text: string, key: string): Option<string> {
    if text == [] then None
    else
      var n := LineLength(text);
      if Assigns(text, n, key) then Some(text[|key| + 1..n])
      else if n == |text| then None
      else Lookup(text[n + 1..], key)
  }

  /** `kv_get`, with p the text from the scanning pointer on; the value is cut to what the caller's buffer holds. */
  method KvGet(buf: string, key: string, outsz: nat) returns (value: Option<string>)
    requires outsz > 0
    ensures value == Cut(Lookup(buf, key), outsz - 1)
  {
    var p := buf;
    while p != []
      invariant Lookup(p, key) == Lookup(buf, key)
      decreases |p|
    {
      var len := LineLength(p);
      if Assigns(p, len, key) {
        value := Some(p[|key| + 1..len]);
        if len - |key| - 1 >= outsz {
          value := Some(p[|key| + 1..len][..outsz - 1]);
        }
        return;
      }
      if len == |p| {
        return None;
      }
      p := p[len + 1..];
    }
    return None;
  }

  /** A value in a buffer for n characters. */
  function Cut(value: Option<string>, n: nat): Option<string> {
    if value.Some? && |value.value| > n then Some(value.value[..n]) else value
  }

  function KvU64(text: string, key: string): Option<u64> {
    var v := Cut(Lookup(text, key), 63);
    if v.None? || v.value == [] || v.value[0] == '-' then None else Strtoull(v.value)
  }

  function KvI64(text: string, key: string): Option<i64> {
    var v := Cut(Lookup(text, key), 63);
    if v.None? || v.value == [] then None else Strtoll(v.value)
  }

  /** The checks of `ats_state_load`, in their order, on the text read. */
  function Parse(text: string): Option<Record> {
    if Cut(Lookup(text, KEY_MAGIC), 31) != Some(MAGIC) then None
    else if KvU64(text, KEY_VERSION) != Some(VERSION) || KvU64(text, KEY_BASE) != Some(ATS_USER) then None
    else
      var offset, rtc, wall := KvU64(text, KEY_OFFSET_MS), KvU64(text, KEY_RTC_MS), KvU64(text, KEY_WALL_MS);
      var delta, synced := KvI64(text, KEY_DELTA_MS), KvU64(text, KEY_SYNCED_AT);
      if offset.None? || rtc.None? || wall.None? || delta.None? || synced.None? then None
      else if offset.value < OFFSET_FLOOR_MS then None
      else Some(Record(ATS_USER, offset.value, rtc.value, wall.value, delta.value, synced.value))
  }

  /** What `ats_state_load` makes of a file: at most 1023 bytes, up to the first NUL. */
  function LoadFile(content: string): Option<Record> {
    if content == [] then None else Parse(CString(content[..Min(|content|, 1023)]))
  }

  lemma LoadedBase(content: string)
    ensures LoadFile(content).Some? ==> LoadFile(content).value.base == ATS_USER
  {
    hide KvU64, KvI64, Lookup, CString;
  }

  // ----- writing -----

  type Fields = seq<(string, string)>

  function Render(fields: Fields): string {
    if fields == [] then [] else fields[0].0 + "=" + fields[0].1 + "\n" + Render(fields[1..])
  }

  const KEYS := [KEY_MAGIC, KEY_VERSION, KEY_BASE, KEY_OFFSET_MS, KEY_RTC_MS, KEY_WALL_MS, KEY_DELTA_MS, KEY_SYNCED_AT]

  function ValuesOf(r: Record): (v: seq<string>)
    ensures |v| == 8
  {
    [MAGIC, "1", Decimal(r.base), Decimal(r.offset), Decimal(r.rtc), Decimal(r.wall), SignedDecimal(r.delta),
     Decimal(r.syncedAt)]
  }

  function FieldsOf(r: Record): (f: Fields)
    ensures |f| == 8 && forall i :: 0 <= i < 8 ==> f[i] == (KEYS[i], ValuesOf(r)[i])
  {
    seq(8, i requires 0 <= i < 8 => (KEYS[i], ValuesOf(r)[i]))
  }

  /** The snprintf of `ats_state_save`. */
  function Format(r: Record): string {
    Render(FieldsOf(r))
  }

  // ----- numbers survive -----

  lemma {:induction false} AllDigits(d: string)
    requires forall i :: 0 <= i < |d| ==> IsDigit(d[i])
    ensures DigitPrefix(d) == d
  {
    if d != [] {
      AllDigits(d[1..]);
    }
  }

  lemma NumberOfDigits(d: string)
    requires d != [] && forall i :: 0 <= i < |d| ==> IsDigit(d[i])
    ensures SignedNumber(d) == Some((false, Value(d)))
  {
    AllDigits(d);
    StartsWithDigit(d);
    hide Value, SkipSpaces, DigitPrefix;
  }

  lemma StartsWithDigit(d: string)
    requires d != [] && IsDigit(d[0])
    ensures SkipSpaces(d) == d && d[0] != '-' && d[0] != '+'
  {
  }

  lemma NumberBehindMinus(d: string)
    requires d != [] && forall i :: 0 <= i < |d| ==> IsDigit(d[i])
    ensures SignedNumber(['-'] + d) == Some((true, Value(d)))
  {
    AllDigits(d);
    var s := ['-'] + d;
    assert SkipSpaces(s) == s;
    assert s[1..] == d;
  }

  lemma StrtoullOfDecimal(n: u64)
    ensures Strtoull(Decimal(n)) == Some(n) && Decimal(n)[0] != '-' && |Decimal(n)| <= 20
  {
    var d := Decimal(n);
    assert IsDigit(d[0]);
    NumberOfDigits(d);
    ValueOfDecimal(n);
    U64Digits(n);
  }

  lemma StrtollOfDecimal(n: i64)
    ensures Strtoll(SignedDecimal(n)) == Some(n) && SignedDecimal(n) != [] && |SignedDecimal(n)| <= 21
  {
    var m: nat := if n < 0 then 0 - n else n;
    ValueOfDecimal(m);
    U64Digits(m);
    if n < 0 {
      NumberBehindMinus(Decimal(m));
    } else {
      NumberOfDigits(Decimal(m));
    }
  }

  // ----- lines survive, and so does a part of them -----

  /** No newline and no NUL inside. */
  predicate Clean(s: string) {
    '\n' !in s && '\0' !in s
  }

  ghost predicate WellFormed(fields: Fields) {
    && (forall i :: 0 <= i < |fields| ==> Clean(fields[i].0) && Clean(fields[i].1) && '=' !in fields[i].0)
    && (forall i, j :: 0 <= i < j < |fields| ==> fields[i].0 != fields[j].0)
  }

  function LineOf(field: (string, string)): string {
    field.0 + "=" + field.1
  }

  /** What a lookup finds in the first k characters of the rendered fields. */
  function LookupPart(fields: Fields, key: string, k: nat): Option<string>
    decreases |fields|
  {
    if fields == [] then None
    else
      var (name, value) := fields[0];
      if name == key then
        if k > |name| then Some(value[..Min(|value|, k - |name| - 1)]) else None
      else if k > |LineOf(fields[0])| then LookupPart(fields[1..], key, k - |LineOf(fields[0])| - 1)
      else None
  }

  lemma {:induction false} LineLengthOf(s: string, rest: string)
    requires '\n' !in s
    ensures LineLength(s + "\n" + rest) == |s| && LineLength(s) == |s|
    decreases |s|
  {
    var all := s + "\n" + rest;
    if s != [] {
      assert all[1..] == s[1..] + "\n" + rest;
      LineLengthOf(s[1..], rest);
    }
  }

  /** A line, whole or cut short, assigns to a key exactly when it carries the key and an equals sign. */
  lemma OnlyItsOwnKey(name: string, value: string, key: string, line: string)
    requires '=' !in name && '=' !in key
    requires line <= name + "=" + value
    ensures (|line| > |key| && line[..|key|] == key && line[|key|] == '=') <==> (name == key && |line| > |key|)
  {
    var full := name + "=" + value;
    if |line| > |key| {
      assert line[|key|] == full[|key|] && line[..|key|] == full[..|key|];
      if |key| < |name| {
        assert full[|key|] == name[|key|] && name[|key|] in name;
      } else if |name| < |key| {
        assert key[|name|] in key;
        assert line[..|key|][|name|] == '=';
      } else {
        assert full[..|name|] == name;
      }
    }
  }

  lemma {:induction false} LookupOfPart(fields: Fields, key: string, k: nat)
    requires WellFormed(fields) && '=' !in key && k <= |Render(fields)|
    ensures Lookup(Render(fields)[..k], key) == LookupPart(fields, key, k)
    decreases |fields|
  {
    if fields == [] {
    } else {
      hide Render, LookupPart, LineOf, Lookup, WellFormed, Clean;
      HeadWellFormed(fields);
      RenderCons(fields);
      LookupPartCons(fields, key, k);
      var name, value := fields[0].0, fields[0].1;
      var line := LineOf((name, value));
      LookupInFront(name, value, key, Render(fields[1..]), k);
      if name != key && k > |line| {
        LookupOfPart(fields[1..], key, k - |line| - 1);
      }
    }
  }

  lemma RenderCons(fields: Fields)
    requires fields != []
    ensures Render(fields) == LineOf((fields[0].0, fields[0].1)) + "\n" + Render(fields[1..])
  {
  }

  lemma LookupPartCons(fields: Fields, key: string, k: nat)
    requires fields != []
    ensures var (name, value) := (fields[0].0, fields[0].1);
            LookupPart(fields, key, k) ==
              if name == key then (if k > |name| then Some(value[..Min(|value|, k - |name| - 1)]) else None)
              else if k > |LineOf((name, value))| then LookupPart(fields[1..], key, k - |LineOf((name, value))| - 1)
              else None
  {
    hide LineOf;
  }

  /** The front line of a text that is cut off after k characters. */
  lemma LookupInFront(name: string, value: string, key: string, rest: string, k: nat)
    requires Clean(name) && Clean(value) && '=' !in name && '=' !in key
    requires k <= |LineOf((name, value))| + 1 + |rest|
    ensures Lookup((LineOf((name, value)) + "\n" + rest)[..k], key) ==
              if name == key then (if k > |name| then Some(value[..Min(|value|, k - |name| - 1)]) else None)
              else if k > |LineOf((name, value))| then Lookup(rest[..k - |LineOf((name, value))| - 1], key)
              else None
  {
    var line := LineOf((name, value));
    PartOfLines(line, rest, k);
    if k <= |line| {
      LookupInLine(name, value, key, line[..k]);
    } else {
      LookupInLines(name, value, key, rest[..k - |line| - 1]);
      assert value[..Min(|value|, k - |name| - 1)] == value;
    }
  }

  lemma HeadWellFormed(fields: Fields)
    requires WellFormed(fields) && fields != []
    ensures Clean(fields[0].0) && Clean(fields[0].1) && '=' !in fields[0].0
    ensures WellFormed(fields[1..])
  {
  }

  lemma PartOfLines(line: string, rest: string, k: nat)
    requires k <= |line| + 1 + |rest|
    ensures (line + "\n" + rest)[..k] == if k <= |line| then line[..k] else line + "\n" + rest[..k - |line| - 1]
  {
  }

  lemma LookupInLine(name: string, value: string, key: string, text: string)
    requires Clean(name) && Clean(value) && '=' !in name && '=' !in key && text <= LineOf((name, value))
    ensures Lookup(text, key) ==
              if name == key && |text| > |name| then Some(value[..|text| - |name| - 1]) else None
  {
    if text != [] {
      LineLengthOf(text, []);
      OnlyItsOwnKey(name, value, key, text);
      if name == key && |text| > |name| {
        assert text[|key| + 1..|text|] == value[..|text| - |name| - 1];
      }
    }
  }

  lemma LookupInLines(name: string, value: string, key: string, rest: string)
    requires Clean(name) && Clean(value) && '=' !in name && '=' !in key
    ensures Lookup(LineOf((name, value)) + "\n" + rest, key) ==
              if name == key then Some(value) else Lookup(rest, key)
  {
    var line := LineOf((name, value));
    var text := line + "\n" + rest;
    LineLengthOf(line, rest);
    OnlyItsOwnKey(name, value, key, line);
    assert text[|line| + 1..] == rest;
    if |line| > |key| {
      assert text[..|key|] == line[..|key|] && text[|key|] == line[|key|];
    }
    if name == key {
      assert text[|key| + 1..|line|] == value;
    }
  }

  /** Where the i-th field stands, a lookup of its key finds as much of the value as is there. */
  lemma {:induction false} LookupPartAt(fields: Fields, i: nat, k: nat)
    requires WellFormed(fields) && i < |fields|
    ensures var (name, value) := fields[i];
            var before := |Render(fields[..i])|;
            LookupPart(fields, name, k) ==
              if k > before + |name| then Some(value[..Min(|value|, k - before - |name| - 1)]) else None
    decreases i
  {
    if i == 0 {
      assert fields[..0] == [];
    } else {
      assert fields[..i][0] == fields[0] && fields[..i][1..] == fields[1..][..i - 1];
      assert Render(fields[..i]) == LineOf(fields[0]) + "\n" + Render(fields[1..][..i - 1]);
      if k > |LineOf(fields[0])| {
        LookupPartAt(fields[1..], i - 1, k - |LineOf(fields[0])| - 1);
      }
    }
  }

  lemma {:induction false} FieldEndsBefore(fields: Fields, i: nat, j: nat)
    requires i < j <= |fields|
    ensures |Render(fields[..i])| + |LineOf(fields[i])| + 1 <= |Render(fields[..j])|
    decreases i
  {
    assert fields[..j][1..] == fields[1..][..j - 1];
    if i == 0 {
      assert fields[..0] == [];
    } else {
      assert fields[..i][1..] == fields[1..][..i - 1];
      FieldEndsBefore(fields[1..], i - 1, j - 1);
    }
  }

  // ----- the record -----

  lemma FieldsAreWellFormed(r: Record)
    ensures WellFormed(FieldsOf(r))
  {
    var f := FieldsOf(r);
    forall i | 0 <= i < 8 ensures Clean(f[i].0) && Clean(f[i].1) && '=' !in f[i].0 {
      KeyIsClean(i);
      ValueIsClean(r, i);
    }
    forall i, j | 0 <= i < j < 8 ensures f[i].0 != f[j].0 {
      KeyIsClean(i);
      KeyIsClean(j);
      InitialsDiffer(i, j);
    }
  }

  /** The keys differ in their first letters. */
  function Initial(i: nat): char {
    if i == 0 then 'm' else if i == 1 then 'v' else if i == 2 then 'b' else if i == 3 then 'o'
    else if i == 4 then 'r' else if i == 5 then 'w' else if i == 6 then 'd' else 's'
  }

  lemma InitialsDiffer(i: nat, j: nat)
    requires i < j < 8
    ensures Initial(i) != Initial(j)
  {
  }

  lemma KeyIsClean(i: nat)
    requires i < 8
    ensures Clean(KEYS[i]) && '=' !in KEYS[i] && KEYS[i] != [] && KEYS[i][0] == Initial(i)
  {
    if i == 0 { assert KEYS[i] == "magic"; }
    else if i == 1 { assert KEYS[i] == "version"; }
    else if i == 2 { assert KEYS[i] == "base"; }
    else if i == 3 { assert KEYS[i] == "offset_ms"; }
    else if i == 4 { assert KEYS[i] == "rtc_ms"; }
    else if i == 5 { assert KEYS[i] == "wall_ms"; }
    else if i == 6 { assert KEYS[i] == "delta_ms"; }
    else { assert KEYS[i] == "synced_at"; }
  }

  lemma ValueIsClean(r: Record, i: nat)
    requires i < 8
    ensures Clean(ValuesOf(r)[i])
  {
    if i == 0 {
      assert ValuesOf(r)[i] == "qcom-ats-state";
    } else if i == 1 {
      assert ValuesOf(r)[i] == "1";
    } else if i == 6 {
      DigitsAreClean(Decimal(if r.delta < 0 then 0 - r.delta else r.delta));
    } else {
      DigitsAreClean(Decimal(if i == 2 then r.base else if i == 3 then r.offset else if i == 4 then r.rtc
                             else if i == 5 then r.wall else r.syncedAt));
    }
  }

  lemma DigitsAreClean(d: string)
    requires forall i :: 0 <= i < |d| ==> IsDigit(d[i])
    ensures Clean(d) && Clean(['-'] + d)
  {
  }

  lemma {:induction false} RenderHasNoNul(fields: Fields)
    requires WellFormed(fields)
    ensures '\0' !in Render(fields)
    decreases |fields|
  {
    if fields != [] {
      HeadWellFormed(fields);
      RenderHasNoNul(fields[1..]);
    }
  }

  lemma {:induction false} CStringOfClean(s: string)
    requires '\0' !in s
    ensures CString(s) == s
  {
    if s != [] {
      CStringOfClean(s[1..]);
    }
  }

  /** The formatted record fits every buffer it passes through. */
  lemma FormatFits(r: Record)
    ensures 0 < |Format(r)| < 512
  {
    var f := FieldsOf(r);
    U64Digits(r.base);
    U64Digits(r.offset);
    U64Digits(r.rtc);
    U64Digits(r.wall);
    U64Digits(r.syncedAt);
    StrtollOfDecimal(r.delta);
    forall i | 0 <= i < 8 ensures |LineOf(f[i])| <= 32 {
      KeyIsClean(i);
      ValueLength(r, i);
    }
    RenderLength(f, 32);
  }

  lemma ValueLength(r: Record, i: nat)
    requires i < 8
    ensures |KEYS[i]| <= 9 && |ValuesOf(r)[i]| <= 21
  {
    if i == 6 {
      StrtollOfDecimal(r.delta);
    } else {
      U64Digits(if i == 2 then r.base else if i == 3 then r.offset else if i == 4 then r.rtc
                else if i == 5 then r.wall else r.syncedAt);
    }
  }

  lemma {:induction false} RenderLength(fields: Fields, bound: nat)
    requires forall i :: 0 <= i < |fields| ==> |LineOf(fields[i])| <= bound
    ensures |fields| <= |Render(fields)| <= |fields| * (bound + 1)
    decreases |fields|
  {
    if fields != [] {
      RenderLength(fields[1..], bound);
      assert |LineOf(fields[0])| <= bound;
      assert |fields| * (bound + 1) == (|fields| - 1) * (bound + 1) + (bound + 1);
    }
  }

  /** What the loader finds for the i-th key in the first k characters of a saved record. */
  lemma LookupSaved(r: Record, i: nat, k: nat)
    requires i < 8 && k <= |Format(r)|
    ensures var before := |Render(FieldsOf(r)[..i])|;
            Lookup(Format(r)[..k], KEYS[i]) ==
              if k > before + |KEYS[i]|
              then Some(ValuesOf(r)[i][..Min(|ValuesOf(r)[i]|, k - before - |KEYS[i]| - 1)]) else None
  {
    FieldsAreWellFormed(r);
    KeyIsClean(i);
    LookupOfPart(FieldsOf(r), KEYS[i], k);
    LookupPartAt(FieldsOf(r), i, k);
  }

  /** Every field before a point that has been reached is found whole. */
  lemma FieldWhole(r: Record, i: nat, j: nat, k: nat)
    requires i < j <= 8 && |Render(FieldsOf(r)[..j])| <= k <= |Format(r)|
    ensures Lookup(Format(r)[..k], KEYS[i]) == Some(ValuesOf(r)[i])
  {
    FieldsAreWellFormed(r);
    FieldWholeIn(FieldsOf(r), i, j, k);
  }

  lemma FieldWholeIn(fields: Fields, i: nat, j: nat, k: nat)
    requires WellFormed(fields) && i < j <= |fields|
    requires |Render(fields[..j])| <= k <= |Render(fields)|
    ensures Lookup(Render(fields)[..k], fields[i].0) == Some(fields[i].1)
  {
    var (name, value) := fields[i];
    LookupOfPart(fields, name, k);
    LookupPartAt(fields, i, k);
    FieldEndsBefore(fields, i, j);
    assert value[..|value|] == value;
  }

  lemma LoadIsParse(r: Record, k: nat)
    requires 0 < k <= |Format(r)|
    ensures LoadFile(Format(r)[..k]) == Parse(Format(r)[..k])
  {
    FormatFits(r);
    FieldsAreWellFormed(r);
    RenderHasNoNul(FieldsOf(r));
    var s := Format(r)[..k];
    CStringOfClean(s);
    assert s[..|s|] == s;
  }

  /** The seven leading lines as the loader looks them up. */
  ghost predicate LeadingLines(r: Record, text: string) {
    && Lookup(text, KEY_MAGIC) == Some(MAGIC)
    && Lookup(text, KEY_VERSION) == Some("1")
    && Lookup(text, KEY_BASE) == Some(Decimal(r.base))
    && Lookup(text, KEY_OFFSET_MS) == Some(Decimal(r.offset))
    && Lookup(text, KEY_RTC_MS) == Some(Decimal(r.rtc))
    && Lookup(text, KEY_WALL_MS) == Some(Decimal(r.wall))
    && Lookup(text, KEY_DELTA_MS) == Some(SignedDecimal(r.delta))
  }

  lemma LinesByName(r: Record, text: string)
    requires forall i :: 0 <= i < 7 ==> Lookup(text, KEYS[i]) == Some(ValuesOf(r)[i])
    ensures LeadingLines(r, text)
  {
    assert Lookup(text, KEYS[0]).Some? && Lookup(text, KEYS[1]).Some? && Lookup(text, KEYS[2]).Some?;
    assert Lookup(text, KEYS[3]).Some? && Lookup(text, KEYS[4]).Some? && Lookup(text, KEYS[5]).Some?;
    assert Lookup(text, KEYS[6]).Some?;
  }

  /** What the loader makes of the seven leading lines. */
  lemma LeadingLinesParse(r: Record, text: string)
    requires LeadingLines(r, text)
    ensures Parse(text) ==
              var synced := KvU64(text, KEY_SYNCED_AT);
              if r.base != ATS_USER || r.offset < OFFSET_FLOOR_MS || synced.None? then None
              else Some(r.(syncedAt := synced.value))
  {
    MagicFound(text);
    VersionFound(text);
    NumberFound(text, KEY_BASE, r.base);
    NumberFound(text, KEY_OFFSET_MS, r.offset);
    NumberFound(text, KEY_RTC_MS, r.rtc);
    NumberFound(text, KEY_WALL_MS, r.wall);
    SignedNumberFound(text, KEY_DELTA_MS, r.delta);
  }

  lemma MagicFound(text: string)
    requires Lookup(text, KEY_MAGIC) == Some(MAGIC)
    ensures Cut(Lookup(text, KEY_MAGIC), 31) == Some(MAGIC)
  {
    assert MAGIC[..|MAGIC|] == MAGIC;
  }

  lemma VersionFound(text: string)
    requires Lookup(text, KEY_VERSION) == Some("1")
    ensures KvU64(text, KEY_VERSION) == Some(VERSION)
  {
    assert Decimal(1) == "1";
    NumberFound(text, KEY_VERSION, 1);
  }

  lemma SignedNumberFound(text: string, key: string, n: i64)
    requires Lookup(text, key) == Some(SignedDecimal(n))
    ensures KvI64(text, key) == Some(n)
  {
    StrtollOfDecimal(n);
    var d := SignedDecimal(n);
    assert d[..|d|] == d;
  }

  lemma NumberFound(text: string, key: string, n: u64)
    requires Lookup(text, key) == Some(Decimal(n))
    ensures KvU64(text, key) == Some(n)
  {
    StrtoullOfDecimal(n);
    var d := Decimal(n);
    assert d[..|d|] == d;
  }

  /**
   Saving and loading: the record comes back whole, for all field values, exactly when it belongs
   to ATS_USER and its offset is not below the floor; otherwise nothing is loaded.
   */
  lemma LoadOfSaved(r: Record)
    ensures LoadFile(Format(r)) == if r.base == ATS_USER && r.offset >= OFFSET_FLOOR_MS then Some(r) else None
  {
    var text := Format(r);
    forall i | 0 <= i < 8 ensures Lookup(text, KEYS[i]) == Some(ValuesOf(r)[i]) {
      FieldOfWhole(r, i);
    }
    LinesByName(r, text);
    LeadingLinesParse(r, text);
    assert Lookup(text, KEYS[7]).Some?;
    NumberFound(text, KEY_SYNCED_AT, r.syncedAt);
    WholeIsParse(r);
  }

  lemma FieldOfWhole(r: Record, i: nat)
    requires i < 8
    ensures Lookup(Format(r), KEYS[i]) == Some(ValuesOf(r)[i])
  {
    var text := Format(r);
    assert FieldsOf(r)[..8] == FieldsOf(r) && text[..|text|] == text;
    FieldWhole(r, i, 8, |text|);
  }

  lemma WholeIsParse(r: Record)
    ensures LoadFile(Format(r)) == Parse(Format(r))
  {
    var text := Format(r);
    FormatFits(r);
    LoadIsParse(r, |text|);
    assert text[..|text|] == text;
  }

  /**
   A record cut short anywhere is not loaded at all, or differs from the saved one in the
   human-readable time stamp alone.
   */
  lemma LoadOfTorn(r: Record, k: nat)
    requires k <= |Format(r)|
    ensures var got := LoadFile(Format(r)[..k]);
            got.Some? ==> got.value == r.(syncedAt := got.value.syncedAt)
  {
    var text := Format(r)[..k];
    if LoadFile(text).Some? {
      assert k > 0;
      LoadIsParse(r, k);
      LookupSaved(r, 7, k);
      assert KvU64(text, KEY_SYNCED_AT).Some?;
      assert Lookup(text, KEYS[7]).Some?;
      forall i | 0 <= i < 7 ensures Lookup(text, KEYS[i]) == Some(ValuesOf(r)[i]) {
        FieldWhole(r, i, 7, k);
      }
      LinesByName(r, text);
      LeadingLinesParse(r, text);
    }
  }

  // ----- the file format, line by line -----

  /** A text as the lines between its newlines. */
  function LinesOf(text: string): (ls: seq<string>)
    ensures ls != []
    decreases |text|
  {
    if text == [] then [[]]
    else if text[0] == '\n' then [[]] + LinesOf(text[1..])
    else
      var more := LinesOf(text[1..]);
      [[text[0]] + more[0]] + more[1..]
  }

  /** The line i is the first that begins with the key and an equals sign, and goes on with the value. */
  ghost predicate FirstAt(ls: seq<string>, key: string, i: nat, value: string) {
    i < |ls| && ls[i] == key + "=" + value && forall j :: 0 <= j < i ==> !(key + "=" <= ls[j])
  }

  ghost predicate IsFirst(text: string, key: string, value: string) {
    exists i: nat :: FirstAt(LinesOf(text), key, i, value)
  }

  lemma {:induction false} SplitFirst(text: string)
    ensures var n := LineLength(text);
            LinesOf(text) == [text[..n]] + if n == |text| then [] else LinesOf(text[n + 1..])
    decreases |text|
  {
    if text == [] {
    } else if text[0] == '\n' {
      assert text[..0] == [];
    } else {
      SplitFirst(text[1..]);
      var n := LineLength(text);
      assert text[..n] == [text[0]] + text[1..][..n - 1];
      if n < |text| {
        assert text[1..][n..] == text[n + 1..];
      }
    }
  }

  lemma AssignsMeans(text: string, n: nat, key: string)
    requires n <= |text|
    ensures Assigns(text, n, key) <==> key + "=" <= text[..n]
    ensures Assigns(text, n, key) ==> text[..n] == key + "=" + text[|key| + 1..n]
  {
    if Assigns(text, n, key) {
      assert text[..n] == text[..|key|] + [text[|key|]] + text[|key| + 1..n];
    }
    if key + "=" <= text[..n] {
      assert text[..n][..|key|] == (key + "=")[..|key|] == key;
      assert text[..n][|key|] == (key + "=")[|key|];
    }
  }

  lemma OneValue(key: string, v: string, w: string)
    requires key + "=" + v == key + "=" + w
    ensures v == w
  {
    assert (key + "=" + v)[|key| + 1..] == v && (key + "=" + w)[|key| + 1..] == w;
  }

  /** A lookup finds exactly the value on the first line that assigns to the key. */
  lemma {:induction false} LookupIsFirst(text: string, key: string, value: string)
    ensures Lookup(text, key) == Some(value) <==> IsFirst(text, key, value)
    decreases |text|
  {
    var n := LineLength(text);
    SplitFirst(text);
    AssignsMeans(text, n, key);
    var ls := LinesOf(text);
    if text == [] {
      NoKeyInNothing(key);
    } else if Assigns(text, n, key) {
      FirstIsFirst(ls, key, text[|key| + 1..n], value);
    } else if n == |text| {
      assert ls == [text[..n]];
      OnlyLine(ls, key, value);
    } else {
      LookupIsFirst(text[n + 1..], key, value);
      BehindFirst(text[..n], LinesOf(text[n + 1..]), key, value);
    }
  }

  lemma NoKeyInNothing(key: string)
    ensures forall i: nat, value :: !FirstAt(LinesOf([]), key, i, value)
  {
    forall i: nat, value ensures !FirstAt(LinesOf([]), key, i, value) {
      assert |key + "=" + value| > 0;
    }
  }

  lemma FirstIsFirst(ls: seq<string>, key: string, found: string, value: string)
    requires ls != [] && ls[0] == key + "=" + found
    ensures (exists i: nat :: FirstAt(ls, key, i, value)) <==> found == value
  {
    assert FirstAt(ls, key, 0, found);
    assert key + "=" <= ls[0];
    forall i: nat | FirstAt(ls, key, i, value) ensures found == value {
      assert i == 0;
      OneValue(key, found, value);
    }
  }

  lemma OnlyLine(ls: seq<string>, key: string, value: string)
    requires |ls| == 1 && !(key + "=" <= ls[0])
    ensures forall i: nat :: !FirstAt(ls, key, i, value)
  {
    assert key + "=" <= key + "=" + value;
  }

  lemma BehindFirst(line: string, ls: seq<string>, key: string, value: string)
    requires !(key + "=" <= line)
    ensures (exists i: nat :: FirstAt([line] + ls, key, i, value)) <==> exists i: nat :: FirstAt(ls, key, i, value)
  {
    assert key + "=" <= key + "=" + value;
    var all := [line] + ls;
    forall i: nat | FirstAt(all, key, i, value) ensures i > 0 && FirstAt(ls, key, i - 1, value) {
      assert i > 0;
      forall j | 0 <= j < i - 1 ensures !(key + "=" <= ls[j]) {
        assert all[j + 1] == ls[j];
      }
    }
    forall i: nat | FirstAt(ls, key, i, value) ensures FirstAt(all, key, i + 1, value) {
      forall j | 0 <= j < i + 1 ensures !(key + "=" <= all[j]) {
        if j > 0 {
          assert all[j] == ls[j - 1];
        }
      }
    }
  }

  /** A number on the first line for a key: at most 63 characters of it, not empty and without a minus sign. */
  ghost predicate Holds(text: string, key: string, n: u64) {
    exists value :: IsFirst(text, key, value) && value != [] && value[0] != '-' && Strtoull(value[..Min(|value|, 63)]) == Some(n)
  }

  ghost predicate HoldsSigned(text: string, key: string, n: i64) {
    exists value :: IsFirst(text, key, value) && value != [] && Strtoll(value[..Min(|value|, 63)]) == Some(n)
  }

  lemma NumberIsHeld(text: string, key: string, n: u64)
    ensures KvU64(text, key) == Some(n) <==> Holds(text, key, n)
  {
    hide Lookup, Strtoull, IsFirst;
    var v := Lookup(text, key);
    forall value ensures v == Some(value) <==> IsFirst(text, key, value) {
      LookupIsFirst(text, key, value);
    }
    if v.Some? {
      assert v.value[..Min(|v.value|, 63)] == Cut(v, 63).value;
    }
  }

  lemma SignedNumberIsHeld(text: string, key: string, n: i64)
    ensures KvI64(text, key) == Some(n) <==> HoldsSigned(text, key, n)
  {
    hide Lookup, Strtoll, IsFirst;
    var v := Lookup(text, key);
    forall value ensures v == Some(value) <==> IsFirst(text, key, value) {
      LookupIsFirst(text, key, value);
    }
    if v.Some? {
      assert v.value[..Min(|v.value|, 63)] == Cut(v, 63).value;
    }
  }

  lemma MagicIsFirst(text: string)
    ensures Cut(Lookup(text, KEY_MAGIC), 31) == Some(MAGIC) <==> IsFirst(text, "magic", "qcom-ats-state")
  {
    hide Lookup, IsFirst;
    LookupIsFirst(text, "magic", "qcom-ats-state");
    assert |MAGIC| == 14;
  }

  /** What a file must say to load as this record: the lines of a version 1 record for base 2, and an offset from 2020 on. */
  ghost predicate Says(text: string, r: Record) {
    && IsFirst(text, "magic", "qcom-ats-state") && Holds(text, "version", 1) && Holds(text, "base", 2) && r.base == 2
    && Holds(text, "offset_ms", r.offset) && Holds(text, "rtc_ms", r.rtc) && Holds(text, "wall_ms", r.wall)
    && HoldsSigned(text, "delta_ms", r.delta) && Holds(text, "synced_at", r.syncedAt)
    && r.offset >= 1_261_872_000_000
  }

  /** A file loads as a record exactly if its first 1023 bytes, up to a NUL, say so: a foreign or incomplete one never does. */
  lemma LoadIsWhatFileSays(content: string, r: Record)
    ensures LoadFile(content) == Some(r) <==> content != [] && Says(CString(content[..Min(|content|, 1023)]), r)
  {
    ParseIsWhatTextSays(CString(content[..Min(|content|, 1023)]), r);
    hide Parse, Says, CString;
  }

  lemma ParseIsWhatTextSays(text: string, r: Record)
    ensures Parse(text) == Some(r) <==> Says(text, r)
  {
    hide Lookup, KvU64, KvI64, Holds, HoldsSigned, IsFirst, Cut;
    MagicIsFirst(text);
    NumberIsHeld(text, "version", 1);
    NumberIsHeld(text, "base", 2);
    NumberIsHeld(text, "offset_ms", r.offset);
    NumberIsHeld(text, "rtc_ms", r.rtc);
    NumberIsHeld(text, "wall_ms", r.wall);
    SignedNumberIsHeld(text, "delta_ms", r.delta);
    NumberIsHeld(text, "synced_at", r.syncedAt);
  }

  function Assignment(key: string, value: string): string {
    key + "=" + value + "\n"
  }

  /** The text written, in full. */
  lemma FormatIs(r: Record)
    ensures Format(r) == "magic=qcom-ats-state\n" + ("version=1\n" + (
      Assignment("base", Decimal(r.base)) + (Assignment("offset_ms", Decimal(r.offset)) + (
        Assignment("rtc_ms", Decimal(r.rtc)) + (Assignment("wall_ms", Decimal(r.wall)) + (
          Assignment("delta_ms", SignedDecimal(r.delta)) + Assignment("synced_at", Decimal(r.syncedAt))))))))
  {
    assert Assignment("magic", MAGIC) == "magic=qcom-ats-state\n" && Assignment("version", "1") == "version=1\n";
    hide Decimal, SignedDecimal, Render, Assignment, MAGIC;
    RenderEight(FieldsOf(r));
    KeysAre();
    hide KEYS;
    var v := ValuesOf(r);
    assert v[0] == MAGIC && v[1] == "1" && v[2] == Decimal(r.base) && v[3] == Decimal(r.offset) && v[4] == Decimal(r.rtc);
    assert v[5] == Decimal(r.wall) && v[6] == SignedDecimal(r.delta) && v[7] == Decimal(r.syncedAt);
    hide ValuesOf;
  }

  lemma KeysAre()
    ensures KEYS[0] == "magic" && KEYS[1] == "version" && KEYS[2] == "base" && KEYS[3] == "offset_ms"
    ensures KEYS[4] == "rtc_ms" && KEYS[5] == "wall_ms" && KEYS[6] == "delta_ms" && KEYS[7] == "synced_at"
  {
  }

  lemma RenderEight(f: Fields)
    requires |f| == 8
    ensures Render(f) == Assignment(f[0].0, f[0].1) + (Assignment(f[1].0, f[1].1) + (Assignment(f[2].0, f[2].1) + (
      Assignment(f[3].0, f[3].1) + (Assignment(f[4].0, f[4].1) + (Assignment(f[5].0, f[5].1) + (
        Assignment(f[6].0, f[6].1) + Assignment(f[7].0, f[7].1)))))))
  {
    hide Render, Assignment;
    RenderFrom(f, 0);
    RenderFrom(f, 1);
    RenderFrom(f, 2);
    RenderFrom(f, 3);
    RenderFrom(f, 4);
    RenderFrom(f, 5);
    RenderFrom(f, 6);
    RenderFrom(f, 7);
    RenderFrom(f, 8);
    assert f[0..] == f;
    assert Assignment(f[7].0, f[7].1) + [] == Assignment(f[7].0, f[7].1);
  }

  lemma RenderFrom(f: Fields, i: nat)
    requires i <= |f|
    ensures i == |f| ==> Render(f[i..]) == []
    ensures i < |f| ==> Render(f[i..]) == Assignment(f[i].0, f[i].1) + Render(f[i + 1..])
  {
    if i < |f| {
      assert f[i..][1..] == f[i + 1..];
    }
  }
}
