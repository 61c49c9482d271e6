/**
 The text form of a string map: `key:value` entries separated by commas, with a
 backslash before each comma, colon and backslash of a key or value.
 */
module MessageConverter {
  import opened Wrappers

  type StringMap = map<string, string>

  predicate Special(c: char) {
    c == ',' || c == ':' || c == '\\'
  }

  // ----- Escaping -----

  function Encoded(s: string): string {
    if s == "" then "" else (if Special(s[0]) then ['\\', s[0]] else [s[0]]) + Encoded(s[1..])
  }

  function Decoded(s: string): Option<string> {
    if s == "" then Some("")
    else if s[0] != '\\' then Prepend(s[0], Decoded(s[1..]))
    else if |s| > 1 && Special(s[1]) then Prepend(s[1], Decoded(s[2..]))
    else None
  }

  function Prepend(c: char, s: Option<string>): Option<string> {
    if s.None? then None else Some([c] + s.value)
  }

  method EncodeString(str: string, result: string) returns (r: string)
    ensures r == result + Encoded(str)
  {
    r := result;
    for i := 0 to |str|
      invariant r + Encoded(str[i..]) == result + Encoded(str)
    {
      assert str[i..][1..] == str[i + 1..];
      if Special(str[i]) {
        r := r + ['\\'];
      }
      r := r + [str[i]];
    }
  }

  method DecodeString(str: string, result: string) returns (ok: bool, r: string)
    ensures ok <==> Decoded(str).Some?
    ensures ok ==> r == result + Decoded(str).value
  {
    r := result;
    var i := 0;
    while i < |str|
      invariant 0 <= i <= |str|
      invariant Decoded(str).Some? <==> Decoded(str[i..]).Some?
      invariant Decoded(str).Some? ==> r + Decoded(str[i..]).value == result + Decoded(str).value
    {
      ghost var rest := str[i..];
      assert rest[1..] == str[i + 1..];
      if str[i] == '\\' {
        i := i + 1;
        if i == |str| || !Special(str[i]) {
          return false, r;
        }
        assert rest[2..] == str[i + 1..];
      }
      r := r + [str[i]];
      i := i + 1;
    }
    ok := true;
  }

  lemma {:induction false} DecodeUndoesEncode(s: string)
    ensures Decoded(Encoded(s)) == Some(s)
  {
    if s != "" {
      DecodeUndoesEncode(s[1..]);
      var (e, rest) := (Encoded(s), Encoded(s[1..]));
      if Special(s[0]) {
        assert e == ['\\', s[0]] + rest && e[2..] == rest && e[1] == s[0];
      } else {
        assert e == [s[0]] + rest && e[1..] == rest;
      }
      assert s == [s[0]] + s[1..];
    }
  }

  // ----- Which characters are escaped -----

  /** How many commas, colons and backslashes a text has. */
  function Escapes(s: string): nat {
    if s == "" then 0 else Escapes(s[1..]) + if s[0] in [',', ':', '\\'] then 1 else 0
  }

  /** Each of the three is preceded by a backslash, and nothing else is. */
  lemma {:induction false} EncodedLength(s: string)
    ensures |Encoded(s)| == |s| + Escapes(s)
  {
    if s != "" {
      EncodedLength(s[1..]);
    }
  }

  lemma {:induction false} NoEscapes(s: string)
    ensures Escapes(s) == 0 <==> ',' !in s && ':' !in s && '\\' !in s
    ensures Escapes(s) == 0 ==> Encoded(s) == s
  {
    if s != "" {
      NoEscapes(s[1..]);
      assert s == [s[0]] + s[1..];
      assert s[0] in s;
    }
  }

  lemma PlainIsEncodedAsItself(s: string)
    ensures Encoded(s) == s <==> ',' !in s && ':' !in s && '\\' !in s
  {
    EncodedLength(s);
    NoEscapes(s);
  }

  lemma {:induction false} EncodedConcat(a: string, b: string)
    ensures Encoded(a + b) == Encoded(a) + Encoded(b)
  {
    if a == "" {
      assert a + b == b;
    } else {
      EncodedConcat(a[1..], b);
      assert (a + b)[0] == a[0] && (a + b)[1..] == a[1..] + b;
      var head := if Special(a[0]) then ['\\', a[0]] else [a[0]];
      assert Encoded(a) == head + Encoded(a[1..]) && Encoded(a + b) == head + Encoded(a[1..] + b);
      hide Encoded;
      Concat(head, Encoded(a[1..]), Encoded(b));
    }
  }

  lemma ThreeAreEscaped()
    ensures Encoded(",") == "\\," && Encoded(":") == "\\:" && Encoded("\\") == "\\\\"
  {
    assert ","[1..] == "" && ":"[1..] == "" && "\\"[1..] == "";
  }

  /** A backslash in front of any other character, or of none, is refused, if it is not
      itself escaped. */
  lemma {:induction false} OtherEscapesFail(a: string, b: string)
    requires Decoded(a).Some? && (b == "" || b[0] !in [',', ':', '\\'])
    ensures Decoded(a + "\\" + b).None?
    decreases |a|
  {
    var s := a + "\\" + b;
    if a == "" {
      assert s[0] == '\\' && (b != "" ==> s[1] == b[0]);
    } else {
      var n := if a[0] == '\\' then 2 else 1;
      OtherEscapesFail(a[n..], b);
      assert s[n..] == a[n..] + "\\" + b && s[0] == a[0] && (n == 2 ==> s[1] == a[1]);
    }
  }

  // ----- Scanning for a separator -----

  /** The first `separator` at or after `j` that no backslash hides; past the end,
      by one more than the length if the text ends in a lone backslash. */
  function Scan(s: string, j: nat, separator: char): (r: nat)
    ensures r >= j && (r < |s| ==> s[r] == separator) && (j <= |s| ==> r <= |s| + 1)
    decreases |s| - j
  {
    if j >= |s| then j
    else if s[j] == '\\' then Scan(s, j + 2, separator)
    else if s[j] == separator then j
    else Scan(s, j + 1, separator)
  }

  /** No `separator` but behind a backslash. */
  predicate Free(s: string, separator: char) {
    s == "" || if s[0] == '\\' then |s| == 1 || Free(s[2..], separator)
               else s[0] != separator && Free(s[1..], separator)
  }

  /** What a scan passes over has no separator of its kind. */
  lemma {:induction false} ScanPassesFree(s: string, j: nat, separator: char)
    requires separator != '\\' && j <= |s| && Scan(s, j, separator) <= |s|
    ensures Free(s[j..Scan(s, j, separator)], separator)
    decreases |s| - j
  {
    var r := Scan(s, j, separator);
    if j < r {
      var n := if s[j] == '\\' then 2 else 1;
      if j + n <= |s| {
        ScanPassesFree(s, j + n, separator);
        assert s[j..r][n..] == s[j + n..r];
      }
    }
  }

  /** A scan stops exactly behind a part that has no separator and does not end in a
      lone backslash, when a separator or nothing follows. */
  lemma {:induction false} ScanStopsBehind(before: string, part: string, after: string, separator: char)
    requires separator != '\\' && Free(part, separator) && Decoded(part).Some?
    requires after == "" || after[0] == separator
    ensures Scan(before + part + after, |before|, separator) == |before| + |part|
    decreases |part|
  {
    var all := before + part + after;
    if part != "" {
      var n := if part[0] == '\\' then 2 else 1;
      var (head, rest) := (part[..n], part[n..]);
      ScanStopsBehind(before + head, rest, after, separator);
      assert part == head + rest;
      Regroup(before, head, rest, after);
      hide Free, Decoded;
      assert all[|before|] == part[0];
    } else if after != "" {
      assert all[|before|] == after[0];
    }
  }

  lemma {:induction false} EncodedIsFree(s: string, separator: char)
    requires Special(separator) && separator != '\\'
    ensures Free(Encoded(s), separator)
  {
    if s != "" {
      EncodedIsFree(s[1..], separator);
      var (e, rest) := (Encoded(s), Encoded(s[1..]));
      assert if Special(s[0]) then e[2..] == rest else e[1..] == rest;
    }
  }

  /** As a result for printed text: a scan stops exactly behind an encoded string that
      a separator follows. */
  lemma ScanStopsAtSeparator(before: string, s: string, after: string, separator: char)
    requires Special(separator) && separator != '\\'
    requires after == "" || after[0] == separator
    ensures Scan(before + Encoded(s) + after, |before|, separator) == |before| + |Encoded(s)|
  {
    EncodedIsFree(s, separator);
    DecodeUndoesEncode(s);
    ScanStopsBehind(before, Encoded(s), after, separator);
  }

  lemma Regroup(a: string, b: string, c: string, d: string)
    ensures a + (b + c) + d == (a + b) + c + d
  {
  }

  // ----- Maps -----

  function Entry(key: string, value: string): string {
    Encoded(key) + ":" + Encoded(value)
  }

  /** The entries of `m` in the order its keys are visited. */
  function Printed(order: seq<string>, m: StringMap): string
    requires forall k | k in order :: k in m
  {
    if order == [] then ""
    else
      var entry := Entry(order[0], m[order[0]]);
      if |order| == 1 then entry else entry + "," + Printed(order[1..], m)
  }

  /** Inserting never replaces an entry. */
  function Insert(m: StringMap, key: string, value: string): StringMap {
    if key in m then m else m[key := value]
  }

  /** The map after reading entries from position `i`, and whether all were good. */
  function Parsed(s: string, i: nat, m: StringMap): (bool, StringMap)
    decreases |s| - i
  {
    if i >= |s| then (true, m) else
    var j := Scan(s, i, ':');
    if j >= |s| then (false, m) else
    var k := Scan(s, j + 1, ',');
    if k > |s| then (false, m) else
    var (key, value) := (Decoded(s[i..j]), Decoded(s[j + 1..k]));
    if key.None? || value.None? then (false, m)
    else Parsed(s, k + 1, Insert(m, key.value, value.value))
  }

  method FindSeparator(str: string, start: nat, separator: char) returns (j: nat)
    requires start <= |str|
    ensures j == Scan(str, start, separator)
  {
    j := start;
    while j < |str|
      invariant start <= j <= |str| + 1
      invariant Scan(str, j, separator) == Scan(str, start, separator)
      decreases |str| + 1 - j
    {
      if str[j] == '\\' {
        j := j + 2;
        continue;
      }
      if str[j] == separator {
        break;
      }
      j := j + 1;
    }
  }

  method StringToMap(str: string, strmap: StringMap) returns (ok: bool, m: StringMap)
    ensures (ok, m) == Parsed(str, 0, strmap)
  {
    hide Scan, Decoded;
    m := strmap;
    var i := 0;
    while i < |str|
      invariant 0 <= i <= |str| + 1
      invariant Parsed(str, i, m) == Parsed(str, 0, strmap)
      decreases |str| + 1 - i
    {
      var j := FindSeparator(str, i, ':');
      if j >= |str| {
        return false, m;
      }
      var k := FindSeparator(str, j + 1, ',');
      if k > |str| {
        return false, m;
      }
      var decoded, key := DecodeString(str[i..j], "");
      if !decoded {
        return false, m;
      }
      var value;
      decoded, value := DecodeString(str[j + 1..k], "");
      if !decoded {
        return false, m;
      }
      assert "" + Decoded(str[i..j]).value == Decoded(str[i..j]).value;
      assert "" + Decoded(str[j + 1..k]).value == Decoded(str[j + 1..k]).value;
      if key !in m {
        m := m[key := value];
      }
      i := k + 1;
    }
    ok := true;
  }

  /** What printing still has to add when the entries before `i` are printed. */
  function Remaining(order: seq<string>, m: StringMap, i: nat): string
    requires i <= |order| && forall k | k in order :: k in m
  {
    (if 0 < i < |order| then "," else "") + Printed(order[i..], m)
  }

  lemma RemainingStep(order: seq<string>, m: StringMap, i: nat)
    requires i < |order| && forall k | k in order :: k in m
    ensures Remaining(order, m, i) ==
            (if i > 0 then "," else "") + Entry(order[i], m[order[i]]) + Remaining(order, m, i + 1)
  {
    hide Entry;
    var rest := order[i..];
    assert rest[1..] == order[i + 1..];
    var entry := Entry(order[i], m[order[i]]);
    if |rest| > 1 {
      assert entry + "," + Printed(rest[1..], m) == entry + ("," + Printed(rest[1..], m));
    }
    Concat((if i > 0 then "," else ""), entry, Remaining(order, m, i + 1));
    assert entry + "" == entry;
  }

  lemma Concat(a: string, b: string, c: string)
    ensures a + b + c == a + (b + c)
  {
  }

  method MapToString(strmap: StringMap, order: seq<string>, str: string) returns (r: string)
    requires forall k | k in order :: k in strmap
    ensures r == str + Printed(order, strmap)
  {
    hide Remaining, Printed;
    r := str;
    RemainingEnds(order, strmap);
    for i := 0 to |order|
      invariant r + Remaining(order, strmap, i) == str + Printed(order, strmap)
    {
      ghost var before := r;
      RemainingStep(order, strmap, i);
      if i != 0 {
        r := r + [','];
      }
      r := EncodeString(order[i], r);
      r := r + [':'];
      r := EncodeString(strmap[order[i]], r);
      ghost var added := (if i > 0 then "," else "") + Entry(order[i], strmap[order[i]]);
      assert r == before + added;
      Concat(before, added, Remaining(order, strmap, i + 1));
    }
  }

  lemma RemainingEnds(order: seq<string>, m: StringMap)
    requires forall k | k in order :: k in m
    ensures Remaining(order, m, 0) == Printed(order, m) && Remaining(order, m, |order|) == ""
  {
    assert order[0..] == order && "" + Printed(order, m) == Printed(order, m);
  }

  // ----- Which texts are accepted -----

  /** An entry as it stands in the text. */
  datatype RawEntry = RawEntry(key: string, value: string)

  /** Both parts can be decoded, and neither has the separator that would end it. */
  predicate Wellformed(e: RawEntry) {
    && Free(e.key, ':') && Decoded(e.key).Some?
    && Free(e.value, ',') && Decoded(e.value).Some?
  }

  predicate AllWellformed(entries: seq<RawEntry>) {
    forall e | e in entries :: Wellformed(e)
  }

  function Line(e: RawEntry): string {
    e.key + ":" + e.value
  }

  /** The entries, a comma behind each. */
  function Lines(entries: seq<RawEntry>): string {
    if entries == [] then "" else Line(entries[0]) + "," + Lines(entries[1..])
  }

  /** `s` is these entries, separated by commas; there may be one more at the end. */
  predicate Spells(s: string, entries: seq<RawEntry>) {
    AllWellformed(entries) && (s == Lines(entries) || s + "," == Lines(entries))
  }

  function InsertEntry(m: StringMap, e: RawEntry): StringMap
    requires Wellformed(e)
  {
    Insert(m, Decoded(e.key).value, Decoded(e.value).value)
  }

  function InsertEntries(m: StringMap, entries: seq<RawEntry>): StringMap
    requires AllWellformed(entries)
    decreases |entries|
  {
    if entries == [] then m else InsertEntries(InsertEntry(m, entries[0]), entries[1..])
  }

  lemma LineSlices(before: string, e: RawEntry, after: string)
    ensures |Line(e)| == |e.key| + 1 + |e.value|
    ensures var s := before + Line(e) + after;
            && s[|before|..|before| + |e.key|] == e.key
            && s[|before| + |e.key| + 1..|before| + |Line(e)|] == e.value
  {
  }

  lemma KeyEnds(s: string, before: string, e: RawEntry, after: string)
    requires Wellformed(e) && s == before + Line(e) + after
    ensures Scan(s, |before|, ':') == |before| + |e.key|
  {
    hide Scan, Decoded, Free;
    var tail := ":" + e.value + after;
    assert tail[0] == ':';
    assert s == before + e.key + tail;
    ScanStopsBehind(before, e.key, tail, ':');
  }

  lemma ValueEnds(s: string, before: string, e: RawEntry, after: string)
    requires Wellformed(e) && s == before + Line(e) + after && (after == "" || after[0] == ',')
    ensures Scan(s, |before| + |e.key| + 1, ',') == |before| + |Line(e)|
  {
    hide Scan, Decoded, Free;
    var front := before + e.key + ":";
    assert s == front + e.value + after;
    ScanStopsBehind(front, e.value, after, ',');
  }

  /** One well-formed entry is read, leaving the rest after its comma. */
  lemma ParseRaw(before: string, e: RawEntry, after: string, m: StringMap)
    requires Wellformed(e) && (after == "" || after[0] == ',')
    ensures var s := before + Line(e) + after;
            Parsed(s, |before|, m) == Parsed(s, |before| + |Line(e)| + 1, InsertEntry(m, e))
  {
    hide Scan, Decoded, Free, Parsed, Insert, Line;
    var (j, k) := (|before| + |e.key|, |before| + |Line(e)|);
    var s := before + Line(e) + after;
    LineSlices(before, e, after);
    KeyEnds(s, before, e, after);
    ValueEnds(s, before, e, after);
    ParsedAdvances(s, |before|, j, k, Decoded(e.key).value, Decoded(e.value).value, m);
  }

  /** One printed entry is read back. */
  lemma ParseEntry(before: string, key: string, value: string, after: string, m: StringMap)
    requires after == "" || after[0] == ','
    ensures var s := before + Entry(key, value) + after;
            Parsed(s, |before|, m) ==
            Parsed(s, |before| + |Entry(key, value)| + 1, Insert(m, key, value))
  {
    hide Decoded, Encoded, Free, Parsed, Insert;
    var e := RawEntry(Encoded(key), Encoded(value));
    EncodedIsFree(key, ':');
    EncodedIsFree(value, ',');
    DecodeUndoesEncode(key);
    DecodeUndoesEncode(value);
    assert Line(e) == Entry(key, value);
    ParseRaw(before, e, after, m);
  }

  lemma ParsedAdvances(s: string, i: nat, j: nat, k: nat, key: string, value: string, m: StringMap)
    requires i <= j < k <= |s| && Scan(s, i, ':') == j && Scan(s, j + 1, ',') == k
    requires Decoded(s[i..j]) == Some(key) && Decoded(s[j + 1..k]) == Some(value)
    ensures Parsed(s, i, m) == Parsed(s, k + 1, Insert(m, key, value))
  {
    hide Scan, Decoded, Insert;
  }

  lemma ParseNothing(s: string, m: StringMap)
    ensures forall i: nat | i >= |s| :: Parsed(s, i, m) == (true, m)
  {
  }

  /** Whatever well-formed entries a text spells are accepted and inserted in order. */
  lemma {:induction false} SpeltIsParsed(before: string, s: string, entries: seq<RawEntry>, m: StringMap)
    requires Spells(s, entries)
    ensures Parsed(before + s, |before|, m) == (true, InsertEntries(m, entries))
    decreases |entries|
  {
    hide Parsed, Line, Lines, Wellformed, InsertEntry;
    if entries == [] {
      assert s == "" by { NoLines(s); }
      ParseNothing(before + s, m);
    } else {
      var (e, more) := (entries[0], entries[1..]);
      assert entries == [e] + more;
      if more == [] && s + "," == Lines(entries) {
        assert entries == [e];
        LastIsParsed(before, s, e, m);
      } else {
        var rest := RestOfLines(s, e, more);
        FrontIsParsed(before, e, rest, m);
        SpeltIsParsed(before + Line(e) + ",", rest, more, InsertEntry(m, e));
      }
    }
  }

  lemma NoLines(s: string)
    ensures s == Lines([]) || s + "," == Lines([]) ==> s == ""
  {
  }

  lemma LastIsParsed(before: string, s: string, e: RawEntry, m: StringMap)
    requires Wellformed(e) && s + "," == Lines([e])
    ensures Parsed(before + s, |before|, m) == (true, InsertEntry(m, e))
  {
    LastLine(s, e);
    hide Parsed, Line, Lines, Wellformed, InsertEntry;
    ParseRaw(before, e, "", m);
    assert before + Line(e) + "" == before + s;
    ParseNothing(before + s, InsertEntry(m, e));
  }

  lemma FrontIsParsed(before: string, e: RawEntry, rest: string, m: StringMap)
    requires Wellformed(e)
    ensures var (s, front) := (before + (Line(e) + "," + rest), before + Line(e) + ",");
            && s == front + rest
            && Parsed(s, |before|, m) == Parsed(s, |front|, InsertEntry(m, e))
  {
    hide Parsed, Line, Wellformed, InsertEntry;
    CommaBetween(before, Line(e), rest);
    ParseRaw(before, e, "," + rest, m);
  }

  lemma CommaBetween(a: string, b: string, c: string)
    ensures a + (b + "," + c) == a + b + ("," + c) == (a + b + ",") + c
    ensures |a + b + ","| == |a| + |b| + 1 && ("," + c)[0] == ','
  {
  }

  lemma LastLine(s: string, e: RawEntry)
    requires s + "," == Lines([e])
    ensures s == Line(e)
  {
    assert Lines([e]) == Line(e) + "," + "";
    assert s == (s + ",")[..|s|] && Line(e) == (Line(e) + "," + "")[..|s|];
  }

  lemma RestOfLines(s: string, e: RawEntry, more: seq<RawEntry>) returns (rest: string)
    requires Spells(s, [e] + more) && (s == Lines([e] + more) || more != [])
    ensures s == Line(e) + "," + rest && Spells(rest, more)
  {
    hide Line, Wellformed;
    var entries := [e] + more;
    assert entries[1..] == more;
    var front := Line(e) + ",";
    assert forall u | u in more :: u in entries;
    if s == Lines(entries) {
      rest := Lines(more);
    } else {
      assert |Lines(more)| > 0;
      rest := Lines(more)[..|Lines(more)| - 1];
      var lines := front + Lines(more);
      assert s == lines[..|s|] && rest == lines[|front|..|s|];
      assert rest + "," == Lines(more) by {
        assert lines[|s|] == (s + ",")[|s|] && lines[|s|] == Lines(more)[|rest|];
      }
    }
  }

  /** What has been read of any text are well-formed entries: all of it if it is
      accepted, else those at its front. */
  lemma {:induction false} ParsedIsSpelt(s: string, i: nat, m: StringMap) returns (entries: seq<RawEntry>)
    requires i <= |s|
    ensures AllWellformed(entries) && Parsed(s, i, m).1 == InsertEntries(m, entries)
    ensures if Parsed(s, i, m).0 then Spells(s[i..], entries) else Lines(entries) <= s[i..]
    decreases |s| - i
  {
    hide Scan, Decoded, Insert, Wellformed, Line, InsertEntry;
    entries := [];
    var (j, k) := (Scan(s, i, ':'), Scan(s, Scan(s, i, ':') + 1, ','));
    if i < |s| && j < |s| && k <= |s| && Decoded(s[i..j]).Some? && Decoded(s[j + 1..k]).Some? {
      var e := EntryAt(s, i, j, k, m);
      hide Parsed;
      if k == |s| {
        ParseNothing(s, InsertEntry(m, e));
        entries := OnlyEntry(s[i..], e, m);
      } else {
        var more := ParsedIsSpelt(s, k + 1, InsertEntry(m, e));
        CommaBehind(s, i, k);
        entries := EntryInFront(s[k + 1..], e, more, Parsed(s, i, m).0);
      }
    }
  }

  lemma EntryAt(s: string, i: nat, j: nat, k: nat, m: StringMap) returns (e: RawEntry)
    requires i <= j < |s| && Scan(s, i, ':') == j && j < k <= |s| && Scan(s, j + 1, ',') == k
    requires Decoded(s[i..j]).Some? && Decoded(s[j + 1..k]).Some?
    ensures Wellformed(e) && s[i..k] == Line(e) && (k < |s| ==> s[k] == ',')
    ensures Parsed(s, i, m) == Parsed(s, k + 1, InsertEntry(m, e))
  {
    hide Scan, Decoded, Free, Parsed, Insert;
    e := RawEntry(s[i..j], s[j + 1..k]);
    ScanPassesFree(s, i, ':');
    ScanPassesFree(s, j + 1, ',');
    ColonBetween(s, i, j, k);
    ParsedAdvances(s, i, j, k, Decoded(e.key).value, Decoded(e.value).value, m);
  }

  lemma ColonBetween(s: string, i: nat, j: nat, k: nat)
    requires i <= j < k <= |s| && s[j] == ':'
    ensures s[i..k] == s[i..j] + ":" + s[j + 1..k]
  {
  }

  lemma CommaBehind(s: string, i: nat, k: nat)
    requires i <= k < |s| && s[k] == ','
    ensures s[i..] == s[i..k] + "," + s[k + 1..]
  {
  }

  lemma OnlyEntry(s: string, e: RawEntry, m: StringMap) returns (entries: seq<RawEntry>)
    requires Wellformed(e) && s == Line(e)
    ensures Spells(s, entries) && InsertEntries(m, entries) == InsertEntry(m, e)
  {
    hide Wellformed, Line;
    entries := [e];
    assert Lines([]) == "" && Lines(entries) == Line(e) + "," + "";
  }

  lemma EntryInFront(rest: string, e: RawEntry, more: seq<RawEntry>, all: bool) returns (entries: seq<RawEntry>)
    requires Wellformed(e) && AllWellformed(more)
    requires if all then Spells(rest, more) else Lines(more) <= rest
    ensures AllWellformed(entries) && entries != [] && entries[0] == e && entries[1..] == more
    ensures var s := Line(e) + "," + rest;
            if all then Spells(s, entries) else Lines(entries) <= s
  {
    hide Wellformed, Line;
    entries := [e] + more;
    var front := Line(e) + ",";
    assert front + rest + "," == front + (rest + ",");
  }

  /** A text is accepted exactly if it spells some well-formed entries, and then those
      are what it inserts; so it spells them in one way as far as the map can tell. */
  lemma AcceptedExactly(s: string, m: StringMap)
    ensures Parsed(s, 0, m).0 <==> exists entries :: Spells(s, entries)
    ensures forall entries | Spells(s, entries) :: Parsed(s, 0, m) == (true, InsertEntries(m, entries))
  {
    hide Parsed, Lines, InsertEntries;
    assert "" + s == s && s[0..] == s;
    forall entries | Spells(s, entries) ensures Parsed(s, 0, m) == (true, InsertEntries(m, entries)) {
      SpeltIsParsed("", s, entries, m);
    }
    var entries := ParsedIsSpelt(s, 0, m);
  }

  /** The keys of the result are the old ones and those of the entries, and none
      replaces what the map had. */
  lemma {:induction false} EntriesAddKeys(m: StringMap, entries: seq<RawEntry>, key: string)
    requires AllWellformed(entries)
    ensures key in m ==> key in InsertEntries(m, entries) && InsertEntries(m, entries)[key] == m[key]
    ensures key in InsertEntries(m, entries) <==> key in m || exists e :: e in entries && Decoded(e.key) == Some(key)
    decreases |entries|
  {
    hide Decoded, Free;
    if entries != [] {
      EntriesAddKeys(InsertEntry(m, entries[0]), entries[1..], key);
      assert entries == [entries[0]] + entries[1..];
      assert forall e :: e in entries <==> e == entries[0] || e in entries[1..];
    }
  }

  /** Of entries with the same key the first counts. */
  lemma {:induction false} FirstEntryCounts(m: StringMap, entries: seq<RawEntry>, i: nat, key: string)
    requires AllWellformed(entries) && i < |entries|
    requires key !in m && Decoded(entries[i].key) == Some(key)
    requires forall j | 0 <= j < i :: Decoded(entries[j].key) != Some(key)
    ensures key in InsertEntries(m, entries) && Some(InsertEntries(m, entries)[key]) == Decoded(entries[i].value)
    decreases |entries|
  {
    hide Decoded, Free;
    if i == 0 {
      EntriesAddKeys(InsertEntry(m, entries[0]), entries[1..], key);
    } else {
      FirstEntryCounts(InsertEntry(m, entries[0]), entries[1..], i - 1, key);
    }
  }

  // ----- Round trip -----

  function InsertAll(m: StringMap, order: seq<string>, source: StringMap): StringMap
    requires forall k | k in order :: k in source
    decreases |order|
  {
    if order == [] then m else InsertAll(Insert(m, order[0], source[order[0]]), order[1..], source)
  }

  lemma {:induction false} ParsePrinted(before: string, order: seq<string>, source: StringMap, m: StringMap)
    requires forall k | k in order :: k in source
    ensures Parsed(before + Printed(order, source), |before|, m) == (true, InsertAll(m, order, source))
    decreases |order|
  {
    hide Parsed, Entry;
    var s := before + Printed(order, source);
    if order == [] {
      ParseNothing(s, m);
    } else {
      var (key, value) := (order[0], source[order[0]]);
      var entry := Entry(key, value);
      var m' := Insert(m, key, value);
      if |order| == 1 {
        assert s == before + entry + "";
        ParseEntry(before, key, value, "", m);
        ParseNothing(s, m');
      } else {
        var after := "," + Printed(order[1..], source);
        assert s == before + entry + after;
        ParseEntry(before, key, value, after, m);
        assert s == (before + entry + ",") + Printed(order[1..], source);
        ParsePrinted(before + entry + ",", order[1..], source, m');
      }
    }
  }

  lemma {:induction false} InsertAllAt(m: StringMap, order: seq<string>, source: StringMap, k: string)
    requires forall k | k in order :: k in source
    ensures k in InsertAll(m, order, source) <==> k in m || k in order
    ensures k in m ==> InsertAll(m, order, source)[k] == m[k]
    ensures k !in m && k in order ==> InsertAll(m, order, source)[k] == source[k]
    decreases |order|
  {
    if order != [] {
      InsertAllAt(Insert(m, order[0], source[order[0]]), order[1..], source, k);
    }
  }

  lemma InsertAllAdds(m: StringMap, order: seq<string>, into: StringMap)
    requires forall k :: k in order <==> k in m
    ensures InsertAll(into, order, m) == m + into
  {
    var all := InsertAll(into, order, m);
    forall k
      ensures k in all <==> k in m + into
      ensures k in m + into ==> all[k] == (m + into)[k]
    {
      InsertAllAt(into, order, m, k);
    }
  }

  /** Printing any map, its keys visited in any order, and parsing the text succeeds
      and adds its entries to the map parsed into, where they are new. */
  lemma ParseAddsEntries(m: StringMap, order: seq<string>, into: StringMap)
    requires forall k :: k in order <==> k in m
    ensures Parsed(Printed(order, m), 0, into) == (true, m + into)
  {
    hide Parsed, Printed, InsertAll;
    ParsePrinted("", order, m, into);
    assert "" + Printed(order, m) == Printed(order, m);
    InsertAllAdds(m, order, into);
  }

  /** Into an empty map, parsing gives the printed map back. */
  lemma RoundTrip(m: StringMap, order: seq<string>)
    requires forall k :: k in order <==> k in m
    ensures Parsed(Printed(order, m), 0, map[]) == (true, m)
  {
    hide Parsed, Printed;
    ParseAddsEntries(m, order, map[]);
    assert m + map[] == m;
  }
}
