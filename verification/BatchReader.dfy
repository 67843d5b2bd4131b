/**
 A reader of what hdd_format_batch_scan_rsp (Docs/WiFi/reference/wlan_hdd_main.c) writes, made from the list of lines in
 the comment above its snprintf calls, and the proof that it gets every record back.  A basic service set id has six
 hexadecimal numbers with 0x in front of each, as the code prints it, where the comment has two digits each.
 */
module BatchReader {
  import opened Words
  import opened Numerals
  import opened BatchScan

  /** A record as the reader sees it: age as a signed number, and whether it was the first of another scan or the last of all. */
  datatype Seen = Seen(changed: bool, bssid: seq<nat>, ssid: string, freq: int, level: int, age: int, last: bool)

  // ----- lines and numbers -----

  /** The first line and what follows it. */
  function Line(s: string): Option<(string, string)> {
    if s == [] then None
    else if s[0] == '\n' then Some(([], s[1..]))
    else
      var more := Line(s[1..]);
      if more.None? then None else Some(([s[0]] + more.value.0, more.value.1))
  }

  /** The value of a line name=value, and what follows the line. */
  function Field(name: string, s: string): Option<(string, string)> {
    var line := Line(s);
    if line.Some? && name + "=" <= line.value.0 then Some((line.value.0[|name| + 1..], line.value.1)) else None
  }

  function Number(s: string): Option<int> {
    if s != [] && s[0] == '-' then
      if Plain(s[1..]) then Some(0 - ReadOn(0, s[1..])) else None
    else if Plain(s) then Some(ReadOn(0, s)) else None
  }

  /** Digits without a leading zero. */
  predicate Plain(s: string)
    ensures Plain(s) ==> forall i :: 0 <= i < |s| ==> IsDigit(s[i])
  {
    s != [] && (forall i :: 0 <= i < |s| ==> '0' <= s[i] <= '9') && (s[0] == '0' ==> |s| == 1)
  }

  function HexValue(c: char): Option<nat> {
    if '0' <= c <= '9' then Some(c as nat - 48) else if 'a' <= c <= 'f' then Some(c as nat - 97 + 10) else None
  }

  /** Hexadecimal, one digit or two of which the first is not zero. */
  function HexNumber(s: string): Option<nat> {
    if |s| == 1 then HexValue(s[0])
    else if |s| == 2 && s[0] != '0' && HexValue(s[0]).Some? && HexValue(s[1]).Some? then
      Some(16 * HexValue(s[0]).value + HexValue(s[1]).value)
    else None
  }

  /** Six numbers 0x.. with colons between them: the part before the first colon, and the others behind it. */
  function Address(s: string, n: nat): Option<seq<nat>>
    decreases n
  {
    if n == 0 || !("0x" <= s) then None
    else
      var (part, rest) := UpToColon(s[2..]);
      var b := HexNumber(part);
      if b.None? then None
      else if n == 1 then if rest.None? then Some([b.value]) else None
      else if rest.None? then None
      else
        var others := Address(rest.value, n - 1);
        if others.None? then None else Some([b.value] + others.value)
  }

  function UpToColon(s: string): (string, Option<string>) {
    if s == [] then ([], None)
    else if s[0] == ':' then ([], Some(s[1..]))
    else
      var (part, rest) := UpToColon(s[1..]);
      ([s[0]] + part, rest)
  }

  // ----- one record, and all of them -----

  /** The numbers and end markers of a record from its frequency on. */
  function Rest(changed: bool, bssid: seq<nat>, ssid: string, s: string): Option<(Seen, string)> {
    var freq := Field("freq", s);
    if freq.None? || Number(freq.value.0).None? then None
    else
      var level := Field("level", freq.value.1);
      if level.None? || Number(level.value.0).None? then None
      else
        var age := Field("age", level.value.1);
        if age.None? || Number(age.value.0).None? || !("dist=-1\nerror=-1\n====\n" <= age.value.1) then None
        else
          var end := age.value.1[22..];
          var last := "####\n----\n" <= end;
          Some((Seen(changed, bssid, ssid, Number(freq.value.0).value, Number(level.value.0).value, Number(age.value.0).value, last),
                if last then end[10..] else end))
  }

  /** The first record, and what follows it. */
  function Record(s: string): Option<(Seen, string)> {
    var changed := "####\n" <= s;
    var bssid := Field("bssid", if changed then s[5..] else s);
    if bssid.None? || Address(bssid.value.0, 6).None? then None
    else
      var ssid := Field("ssid", bssid.value.1);
      if ssid.None? then None
      else Rest(changed, Address(bssid.value.0, 6).value, ssid.value.0, ssid.value.1)
  }

  function Records(s: string, n: nat): Option<seq<Seen>>
    decreases n
  {
    if n == 0 then if s == [] then Some([]) else None
    else
      var first := Record(s);
      if first.None? then None
      else
        var others := Records(first.value.1, n - 1);
        if others.None? then None else Some([first.value.0] + others.value)
  }

  // ----- it reads what was written -----

  /** What of a record there is to see: the age in 32 bits with a sign, and a changed scan if its number is not before. */
  function SeenOf(r: ApRecord, before: u32): Seen {
    Seen(r.batchId != before, r.bssid, r.ssid, r.freq, r.rssi, if r.age < 0x8000_0000 then r.age else r.age - 0x1_0000_0000, r.isLast)
  }

  lemma {:induction false} LineOf(line: string, rest: string)
    requires '\n' !in line
    ensures Line(line + "\n" + rest) == Some((line, rest))
    decreases |line|
  {
    var s := line + "\n" + rest;
    if line == [] {
      assert s[1..] == rest;
    } else {
      assert s[1..] == line[1..] + "\n" + rest;
      assert s[0] == line[0] && [line[0]] + line[1..] == line;
      LineOf(line[1..], rest);
    }
  }

  lemma FieldOf(name: string, value: string, rest: string)
    requires '\n' !in name && '\n' !in value
    ensures Field(name, (name + "=" + value + "\n") + rest) == Some((value, rest))
  {
    var line := name + "=" + value;
    assert name + "=" + value + "\n" + rest == line + "\n" + rest;
    LineOf(line, rest);
    assert line[..|name| + 1] == name + "=";
    assert line[|name| + 1..] == value;
  }

  lemma NumberOf(n: int)
    ensures Number(SignedDecimal(n)) == Some(n) && '\n' !in SignedDecimal(n)
  {
    var m: nat := if n < 0 then 0 - n else n;
    ReadOfDecimal(m);
    PlainDecimal(m);
    if n < 0 {
      assert SignedDecimal(n)[1..] == Decimal(m);
    }
  }

  lemma PlainDecimal(n: nat)
    ensures Plain(Decimal(n))
  {
    ReadOfDecimal(n);
    if n >= 10 {
      assert Decimal(n)[0] == Decimal(n / 10)[0];
      ReadOfDecimal(n / 10);
    }
  }

  lemma HexOf(b: byte)
    ensures HexNumber(Hex(b)) == Some(b) && ':' !in Hex(b) && '\n' !in Hex(b)
  {
  }

  lemma {:induction false} ColonOf(part: string, rest: string)
    requires ':' !in part
    ensures UpToColon(part) == (part, None) && UpToColon(part + ":" + rest) == (part, Some(rest))
    decreases |part|
  {
    var s := part + ":" + rest;
    if part == [] {
      assert s[1..] == rest;
    } else {
      assert s[1..] == part[1..] + ":" + rest;
      assert s[0] == part[0] && [part[0]] + part[1..] == part;
      ColonOf(part[1..], rest);
    }
  }

  lemma AddressCons(part: string, b: nat, tail: string, n: nat, others: seq<nat>)
    requires n > 1 && ':' !in part && HexNumber(part) == Some(b) && Address(tail, n - 1) == Some(others)
    ensures Address("0x" + part + ":" + tail, n) == Some([b] + others)
  {
    hide HexNumber;
    var s := "0x" + part + ":" + tail;
    assert s[2..] == part + ":" + tail;
    assert s[..2] == "0x";
    ColonOf(part, tail);
    hide UpToColon;
  }

  lemma AddressLast(part: string, b: nat)
    requires ':' !in part && HexNumber(part) == Some(b)
    ensures Address("0x" + part, 1) == Some([b])
  {
    hide HexNumber;
    assert ("0x" + part)[2..] == part;
    ColonOf(part, []);
    hide UpToColon;
  }

  lemma {:induction false} AddressOf(b: seq<byte>)
    requires b != []
    ensures Address(Colons(b), |b|) == Some(b) && '\n' !in Colons(b)
    decreases |b|
  {
    hide Address, HexNumber, Hex;
    HexOf(b[0]);
    if |b| == 1 {
      AddressLast(Hex(b[0]), b[0]);
      assert [b[0]] == b;
    } else {
      AddressOf(b[1..]);
      AddressCons(Hex(b[0]), b[0], Colons(b[1..]), |b|, b[1..]);
      assert [b[0]] + b[1..] == b;
    }
  }

  // ----- whole records -----

  lemma BssidField(b: Bssid, rest: string)
    ensures Field("bssid", BssidText(b) + rest) == Some((Colons(b), rest)) && Address(Colons(b), 6) == Some(b)
  {
    AddressOf(b);
    assert BssidText(b) == "bssid" + "=" + Colons(b) + "\n";
    hide Colons, BssidText;
    FieldOf("bssid", Colons(b), rest);
  }

  lemma SsidField(ssid: string, rest: string)
    requires '\n' !in ssid
    ensures Field("ssid", SsidText(ssid) + rest) == Some((ssid, rest))
  {
    assert SsidText(ssid) == "ssid" + "=" + ssid + "\n";
    FieldOf("ssid", ssid, rest);
  }

  lemma NumberField(name: string, n: i32, rest: string)
    requires '\n' !in name
    ensures Field(name, NumberText(name, n) + rest) == Some((SignedDecimal(n), rest)) && Number(SignedDecimal(n)) == Some(n)
  {
    NumberOf(n);
    FieldOf(name, SignedDecimal(n), rest);
  }

  lemma Assoc(a: string, b: string, c: string)
    ensures (a + b) + c == a + (b + c)
  {
  }

  /** What stands behind the numbers of a record. */
  function End(r: ApRecord): string {
    NO_DISTANCE + if r.isLast then END_OF_SCAN + END_OF_RESULT else []
  }

  lemma EndOf(r: ApRecord, more: string)
    requires !r.isLast ==> !("####\n----\n" <= more)
    ensures "dist=-1\nerror=-1\n====\n" <= End(r) + more
    ensures var end := (End(r) + more)[22..];
            ("####\n----\n" <= end <==> r.isLast) && (if r.isLast then end[10..] else end) == more
  {
    assert |NO_DISTANCE| == 22;
    assert (End(r) + more)[..22] == NO_DISTANCE;
    if r.isLast {
      assert (End(r) + more)[22..] == END_OF_SCAN + END_OF_RESULT + more;
      assert END_OF_SCAN + END_OF_RESULT == "####\n----\n";
    } else {
      assert (End(r) + more)[22..] == more;
    }
  }

  lemma AgeIsSigned(age: u32)
    ensures AsSigned32(age) == if age < 0x8000_0000 then age else age - 0x1_0000_0000
  {
  }

  lemma RestOf(r: ApRecord, before: u32, more: string)
    requires !r.isLast ==> !("####\n----\n" <= more)
    ensures var s := NumberText(NAME_FREQ, r.freq) + (NumberText(NAME_LEVEL, r.rssi)
             + (NumberText(NAME_AGE, AsSigned32(r.age)) + End(r)));
            Rest(r.batchId != before, r.bssid, r.ssid, s + more) == Some((SeenOf(r, before), more))
  {
    hide Field, Number, NumberText, End, AsSigned32;
    var freq, level, age := NumberText(NAME_FREQ, r.freq), NumberText(NAME_LEVEL, r.rssi), NumberText(NAME_AGE, AsSigned32(r.age));
    Assoc(freq, level + (age + End(r)), more);
    Assoc(level, age + End(r), more);
    Assoc(age, End(r), more);
    NumberField("freq", r.freq, level + (age + (End(r) + more)));
    NumberField("level", r.rssi, age + (End(r) + more));
    NumberField("age", AsSigned32(r.age), End(r) + more);
    EndOf(r, more);
    AgeIsSigned(r.age);
  }

  /** The reader gets back every field of a record written, whatever follows it. */
  lemma RecordOfText(r: ApRecord, before: u32, more: string)
    requires '\n' !in r.ssid && (!r.isLast ==> !("####\n----\n" <= more))
    ensures Record(Text(r, before) + more) == Some((SeenOf(r, before), more))
  {
    hide Field, Address, BssidText, SsidText, Rest, Colons, NumberText, End, SeenOf;
    var numbers := NumberText(NAME_FREQ, r.freq) + (NumberText(NAME_LEVEL, r.rssi)
      + (NumberText(NAME_AGE, AsSigned32(r.age)) + End(r)));
    FieldsOf(r, numbers);
    var bssid, ssid := BssidText(r.bssid), SsidText(r.ssid);
    Assoc(bssid, ssid + numbers, more);
    Assoc(ssid, numbers, more);
    MarkOf(r, before, Fields(r), more);
    BssidField(r.bssid, ssid + (numbers + more));
    SsidField(r.ssid, numbers + more);
    RestOf(r, before, more);
  }

  lemma FieldsOf(r: ApRecord, numbers: string)
    requires numbers == NumberText(NAME_FREQ, r.freq) + (NumberText(NAME_LEVEL, r.rssi)
               + (NumberText(NAME_AGE, AsSigned32(r.age)) + End(r)))
    ensures Fields(r) == BssidText(r.bssid) + (SsidText(r.ssid) + numbers) && Fields(r)[0] == 'b'
  {
  }

  lemma MarkOf(r: ApRecord, before: u32, fields: string, more: string)
    requires fields == Fields(r) && fields != [] && fields[0] == 'b'
    ensures var s := Text(r, before) + more;
            && ("####\n" <= s <==> r.batchId != before)
            && (if r.batchId != before then s[5..] else s) == fields + more
  {
    hide Fields;
    var s := Text(r, before) + more;
    if r.batchId == before {
      assert s == fields + more;
      assert s[0] == 'b';
    } else {
      assert s == END_OF_SCAN + (fields + more);
      assert s[..5] == END_OF_SCAN;
    }
  }

  /** The number of the scan before the i-th record of a run: that of its predecessor, and none behind the last of a scan. */
  function Before(rs: seq<ApRecord>, first: u32, i: nat): u32
    requires i < |rs|
  {
    if i == 0 then first else if rs[i - 1].isLast then 0 else rs[i - 1].batchId
  }

  function SeenAll(rs: seq<ApRecord>, first: u32): seq<Seen> {
    seq(|rs|, i requires 0 <= i < |rs| => SeenOf(rs[i], Before(rs, first, i)))
  }

  lemma NoResultYet(rs: seq<ApRecord>, before: u32)
    ensures !("####\n----\n" <= Texts(before, rs))
  {
    if rs != [] {
      hide Texts, Fields;
      var more := Texts(Mark(rs[0]), rs[1..]);
      TextsCons(rs, before);
      FieldsStart(rs[0]);
      MarkOf(rs[0], before, Fields(rs[0]), more);
      var s := Texts(before, rs);
      hide Text;
      NoDashes(s, if "####\n" <= s then s[5..] else s);
    }
  }

  lemma NoDashes(s: string, fields: string)
    requires fields != [] && fields[0] == 'b' && fields == if "####\n" <= s then s[5..] else s
    ensures !("####\n----\n" <= s)
  {
    var end := "####\n----\n";
    assert end[..5] == "####\n" && end[5] == '-';
  }

  lemma FieldsStart(r: ApRecord)
    ensures Fields(r) != [] && Fields(r)[0] == 'b'
  {
  }

  lemma TextsCons(rs: seq<ApRecord>, before: u32)
    requires rs != []
    ensures Texts(before, rs) == Text(rs[0], before) + Texts(Mark(rs[0]), rs[1..])
  {
    hide Text;
  }

  /** The reader gets back every record of any number of them written one behind the other, and nothing else. */
  lemma {:induction false} RecordsOfTexts(rs: seq<ApRecord>, first: u32)
    requires forall r :: r in rs ==> '\n' !in r.ssid
    ensures Records(Texts(first, rs), |rs|) == Some(SeenAll(rs, first))
    decreases |rs|
  {
    hide Record, Text, SeenOf;
    if rs == [] {
      assert SeenAll(rs, first) == [];
    } else {
      hide Texts, SeenAll;
      TextsCons(rs, first);
      NoResultYet(rs[1..], Mark(rs[0]));
      RecordOfText(rs[0], first, Texts(Mark(rs[0]), rs[1..]));
      RecordsOfTexts(rs[1..], Mark(rs[0]));
      SeenCons(rs, first);
    }
  }

  lemma SeenCons(rs: seq<ApRecord>, first: u32)
    requires rs != []
    ensures SeenAll(rs, first) == [SeenOf(rs[0], first)] + SeenAll(rs[1..], Mark(rs[0]))
  {
    hide SeenOf;
    var tail := SeenAll(rs[1..], Mark(rs[0]));
    forall i | 1 <= i < |rs| ensures SeenAll(rs, first)[i] == tail[i - 1] {
      assert Before(rs, first, i) == Before(rs[1..], Mark(rs[0]), i - 1);
    }
  }
}
