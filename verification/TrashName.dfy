/** The name a file gets in the trash bin: date and time to the minute, the path with '/'
    turned into '[', and a suffix for what was done to it. */
module TrashName {
  import opened Bytes
  import opened Storage
  import Numerals

  /** Month from 0, as tm_mon; the hour as the code computes it from UTC. */
  datatype Stamp = Stamp(year: nat, mon: nat, mday: nat, hr: int, min: nat)
  {
    predicate Valid() {
      mon <= 11 && 1 <= mday <= 31 && -4 <= hr <= 19 && min <= 59
    }
  }

  datatype Op = Move | Encrypt | Compress | Both

  const PREFIX: string := "/usr/trashbin/"
  const ENC: string := ".enc"
  const CMP: string := ".cmp"

  /** `hr` and `min` from the seconds since the epoch. */
  function HourField(seconds: nat): (r: int)
    ensures -4 <= r <= 19
  {
    seconds / 60 / 60 % 24 - 4
  }

  function MinuteField(seconds: nat): (r: nat)
    ensures r <= 59
  {
    seconds / 60 % 60
  }

  /** `seconds` after the epoch it is `min` past `hr` + 4, UTC: the hour is four behind. */
  ghost predicate ClockShows(seconds: nat, day: nat, hr: int, min: nat, sec: nat) {
    min < 60 && sec < 60 && 0 <= hr + 4 < 24 && seconds == 86400 * day + 3600 * (hr + 4) + 60 * min + sec
  }

  lemma ClockExact(seconds: nat)
    ensures exists day: nat, sec: nat :: ClockShows(seconds, day, HourField(seconds), MinuteField(seconds), sec)
  {
    var minutes, sec := seconds / 60, seconds % 60;
    var hours := minutes / 60;
    var day := hours / 24;
    assert seconds == 60 * minutes + sec && minutes == 60 * hours + MinuteField(seconds);
    assert hours == 24 * day + (HourField(seconds) + 4);
    assert ClockShows(seconds, day, HourField(seconds), MinuteField(seconds), sec);
  }

  function CharDigit(d: nat): (r: char)
    ensures '0' <= r <= '9'
  {
    if d <= 9 then '0' + d as char else '0'
  }

  function CharValue(c: char): (r: Option<nat>)
    ensures r.Some? ==> r.value <= 9
  {
    if '0' <= c <= '9' then Some(c as int - '0' as int) else None
  }

  /** sprintf "%ld" of a year. */
  function Number(n: nat): (r: string)
    ensures |r| >= 1
  {
    Numerals.Decimal(n, CharDigit)
  }

  /** sprintf "%02d": always two characters in the range the fields have. */
  function TwoChars(x: int): (r: string)
    requires -9 <= x <= 99
    ensures |r| == 2
  {
    if x < 0 then ['-', CharDigit(-x)] else [CharDigit(x / 10), CharDigit(x % 10)]
  }

  function TwoCharsValue(s: string): Option<int>
    requires |s| == 2
  {
    match (CharValue(s[0]), CharValue(s[1]))
    case (Some(a), Some(b)) => Some(10 * a + b)
    case (None, Some(b)) => if s[0] == '-' then Some(-1 * (b as int)) else None
    case _ => None
  }

  function Swap(s: string, from: char, to: char): (r: string)
    ensures |r| == |s| && (from != to ==> from !in r)
    ensures forall i :: 0 <= i < |s| ==> r[i] == s[i] || (s[i] == from && r[i] == to)
  {
    seq(|s|, i requires 0 <= i < |s| => if s[i] == from then to else s[i])
  }

  function Suffix(op: Op): string {
    match op
    case Move => ""
    case Encrypt => ENC
    case Compress => CMP
    case Both => ENC + CMP
  }

  function Date(t: Stamp): string
    requires t.Valid()
  {
    Number(t.year) + "-" + TwoChars(t.mon) + "-" + TwoChars(t.mday) + "-" + TwoChars(t.hr) + ":" + TwoChars(t.min) + "_"
  }

  function Name(t: Stamp, path: Path, op: Op): Path
    requires t.Valid()
  {
    PREFIX + Date(t) + Swap(path, '/', '[') + Suffix(op)
  }

  // ----- reading a name back -----

  predicate EndsWith(s: string, end: string) {
    |s| >= |end| && s[|s| - |end|..] == end
  }

  function Cut(s: string, n: nat): string {
    if n <= |s| then s[..|s| - n] else s
  }

  function ParseTail(tail: string): (Path, Op) {
    if EndsWith(tail, ENC + CMP) then (Swap(Cut(tail, 8), '[', '/'), Both)
    else if EndsWith(tail, CMP) then (Swap(Cut(tail, 4), '[', '/'), Compress)
    else if EndsWith(tail, ENC) then (Swap(Cut(tail, 4), '[', '/'), Encrypt)
    else (Swap(tail, '[', '/'), Move)
  }

  /** Reads the date off the front: the year ends at the first dash, the rest has fixed width. */
  function ParseDate(s: string): Option<(Stamp, string)> {
    var k := Numerals.FirstOf(s, '-');
    if |s| < k + 13 then None
    else
      var rest := s[k + 1..];
      if rest[2] != '-' || rest[5] != '-' || rest[8] != ':' || rest[11] != '_' then None
      else
        match (Numerals.DecimalValue(s, k, CharValue), TwoCharsValue(rest[0..2]), TwoCharsValue(rest[3..5]),
               TwoCharsValue(rest[6..8]), TwoCharsValue(rest[9..11]))
        case (Some(year), Some(mon), Some(mday), Some(hr), Some(min)) =>
          if mon >= 0 && mday >= 0 && min >= 0 then Some((Stamp(year, mon, mday, hr, min), rest[12..])) else None
        case _ => None
  }

  function Parse(name: Path): Option<(Stamp, Path, Op)> {
    if |name| >= |PREFIX| && name[..|PREFIX|] == PREFIX then
      match ParseDate(name[|PREFIX|..])
      case Some((t, tail)) => var (path, op) := ParseTail(tail); Some((t, path, op))
      case None => None
    else None
  }

  /** Nothing in the path can be taken for a part of the encoding. */
  predicate Clear(path: Path, op: Op) {
    && '[' !in path
    && (op == Move ==> !EndsWith(path, ENC) && !EndsWith(path, CMP))
    && (op == Compress ==> !EndsWith(path, ENC))
  }

  lemma TwoCharsRoundTrip(x: int)
    requires -9 <= x <= 99
    ensures TwoCharsValue(TwoChars(x)) == Some(x)
  {
  }

  lemma YearRoundTrip(year: nat, rest: string)
    ensures var s, k := Number(year) + "-" + rest, |Number(year)|;
            && Numerals.FirstOf(s, '-') == k && s[k + 1..] == rest
            && Numerals.DecimalValue(s, k, CharValue) == Some(year)
  {
    Numerals.NotADigit(year, CharDigit, '-');
    Numerals.CutAtMark(Number(year), '-', rest);
    Numerals.DecimalRoundTrip(year, CharDigit, CharValue, Number(year) + "-" + rest);
  }

  /** Four fields of two characters, cut out again. */
  lemma Fields(mon: string, mday: string, hr: string, min: string, tail: string)
    requires |mon| == |mday| == |hr| == |min| == 2
    ensures var rest := mon + "-" + mday + "-" + hr + ":" + min + "_" + tail;
            && rest[0..2] == mon && rest[3..5] == mday && rest[6..8] == hr && rest[9..11] == min && rest[12..] == tail
            && rest[2] == '-' && rest[5] == '-' && rest[8] == ':' && rest[11] == '_'
  {
  }

  lemma {:induction false} DateRoundTrip(t: Stamp, tail: string)
    requires t.Valid()
    ensures ParseDate(Date(t) + tail) == Some((t, tail))
  {
    var mon, mday, hr, min := TwoChars(t.mon), TwoChars(t.mday), TwoChars(t.hr), TwoChars(t.min);
    var rest := mon + "-" + mday + "-" + hr + ":" + min + "_" + tail;
    assert Date(t) + tail == Number(t.year) + "-" + rest;
    YearRoundTrip(t.year, rest);
    Fields(mon, mday, hr, min, tail);
    TwoCharsRoundTrip(t.mon);
    TwoCharsRoundTrip(t.mday);
    TwoCharsRoundTrip(t.hr);
    TwoCharsRoundTrip(t.min);
  }

  lemma SwapEnds(path: Path, end: string)
    requires '/' !in end && '[' !in end
    ensures EndsWith(Swap(path, '/', '['), end) <==> EndsWith(path, end)
  {
    if |path| >= |end| {
      var k := |path| - |end|;
      var s := Swap(path, '/', '[');
      if s[k..] == end {
        forall i | 0 <= i < |end| ensures path[k + i] == end[i] { assert s[k..][i] == end[i]; }
        assert path[k..] == end;
      }
      if path[k..] == end {
        forall i | 0 <= i < |end| ensures s[k + i] == end[i] { assert path[k..][i] == end[i]; }
        assert s[k..] == end;
      }
    }
  }

  lemma SwapBack(path: Path)
    ensures Swap(Swap(path, '/', '['), '[', '/') == path <==> '[' !in path
  {
    var s := Swap(Swap(path, '/', '['), '[', '/');
    if '[' in path {
      var i :| 0 <= i < |path| && path[i] == '[';
      assert s[i] == '/';
    }
  }

  lemma EncTail(s: string)
    ensures EndsWith(s + ENC, ENC) && !EndsWith(s + ENC, CMP) && !EndsWith(s + ENC, ENC + CMP) && Cut(s + ENC, 4) == s
  {
    var tail := s + ENC;
    assert tail[|tail| - 4..] == ENC;
    assert |tail| >= 8 ==> tail[|tail| - 8..][7] != (ENC + CMP)[7];
  }

  lemma CmpTail(s: string)
    ensures EndsWith(s + CMP, CMP) && (EndsWith(s + CMP, ENC + CMP) <==> EndsWith(s, ENC)) && Cut(s + CMP, 4) == s
  {
    var tail := s + CMP;
    assert tail[|tail| - 4..] == CMP;
    if |s| >= 4 {
      assert tail[|tail| - 8..] == s[|s| - 4..] + CMP;
      assert (s[|s| - 4..] + CMP)[..4] == s[|s| - 4..] && (ENC + CMP)[..4] == ENC;
    }
  }

  lemma BothTail(s: string)
    ensures EndsWith(s + (ENC + CMP), ENC + CMP) && Cut(s + (ENC + CMP), 8) == s
    ensures EndsWith(s, ENC + CMP) ==> EndsWith(s, CMP)
  {
    if EndsWith(s, ENC + CMP) {
      assert s[|s| - 4..] == s[|s| - 8..][4..] == CMP;
    }
  }

  lemma {:induction false} TailExact(path: Path, op: Op)
    ensures ParseTail(Swap(path, '/', '[') + Suffix(op)) == (path, op) <==> Clear(path, op)
  {
    var s := Swap(path, '/', '[');
    SwapEnds(path, ENC);
    SwapEnds(path, CMP);
    SwapBack(path);
    EncTail(s);
    CmpTail(s);
    BothTail(s);
    assert s + Suffix(Move) == s;
  }

  /** A name reads back to time, path and operation exactly if the path is clear. */
  lemma {:induction false} NameExact(t: Stamp, path: Path, op: Op)
    requires t.Valid()
    ensures Parse(Name(t, path, op)) == Some((t, path, op)) <==> Clear(path, op)
  {
    var tail := Swap(path, '/', '[') + Suffix(op);
    var name := Name(t, path, op);
    assert name == PREFIX + (Date(t) + tail);
    assert name[..|PREFIX|] == PREFIX && name[|PREFIX|..] == Date(t) + tail;
    DateRoundTrip(t, tail);
    TailExact(path, op);
  }

  /** Files moved at different times, from different paths or by different operations get
      different names. */
  lemma NamesDiffer(t: Stamp, path: Path, op: Op, t': Stamp, path': Path, op': Op)
    requires t.Valid() && t'.Valid() && Clear(path, op) && Clear(path', op')
    requires Name(t, path, op) == Name(t', path', op')
    ensures t == t' && path == path' && op == op'
  {
    NameExact(t, path, op);
    NameExact(t', path', op');
  }

  /** Four names in full. */
  lemma NameExample()
    ensures Name(Stamp(2018, 3, 30, -4, 0), "/a/b", Both) == "/usr/trashbin/2018-03-30--4:00_[a[b.enc.cmp"
  {
    NightExample();
    assert Swap("/a/b", '/', '[') == "[a[b";
  }

  lemma NightExample()
    ensures Date(Stamp(2018, 3, 30, -4, 0)) == "2018-03-30--4:00_"
  {
    YearExample();
  }

  lemma EveningExample()
    ensures Date(Stamp(2018, 11, 5, 19, 59)) == "2018-11-05-19:59_"
  {
    YearExample();
  }

  lemma NameExamples()
    ensures Name(Stamp(2018, 11, 5, 19, 59), "/a", Move) == "/usr/trashbin/2018-11-05-19:59_[a"
    ensures Name(Stamp(2018, 11, 5, 19, 59), "/a", Encrypt) == "/usr/trashbin/2018-11-05-19:59_[a.enc"
    ensures Name(Stamp(2018, 11, 5, 19, 59), "/a", Compress) == "/usr/trashbin/2018-11-05-19:59_[a.cmp"
  {
    EveningExample();
    assert Swap("/a", '/', '[') == "[a";
  }

  lemma YearExample()
    ensures Number(2018) == "2018"
  {
    assert Number(2) == "2" && Number(20) == Number(2) + "0" && Number(201) == Number(20) + "1";
    assert Number(2018) == Number(201) + "8";
  }

  lemma {:induction false} NameDate(t: Stamp, path: Path, op: Op)
    requires t.Valid()
    ensures ParseDate(Name(t, path, op)[|PREFIX|..]) == Some((t, Swap(path, '/', '[') + Suffix(op)))
  {
    var tail := Swap(path, '/', '[') + Suffix(op);
    assert Name(t, path, op) == PREFIX + (Date(t) + tail);
    assert Name(t, path, op)[|PREFIX|..] == Date(t) + tail;
    DateRoundTrip(t, tail);
  }

  ghost predicate TellsTime(name: Path, seconds: nat) {
    && |name| >= |PREFIX| && ParseDate(name[|PREFIX|..]).Some?
    && var t := ParseDate(name[|PREFIX|..]).value.0;
       exists day: nat, sec: nat :: ClockShows(seconds, day, t.hr, t.min, sec)
  }

  /** The hour and minute read off a name are those of the time it was built at. */
  lemma {:induction false} NameTellsTime(t: Stamp, seconds: nat, path: Path, op: Op)
    requires t.Valid() && t.hr == HourField(seconds) && t.min == MinuteField(seconds)
    ensures TellsTime(Name(t, path, op), seconds)
  {
    NameDate(t, path, op);
    ClockExact(seconds);
  }

  /** Among files that are only moved, paths without '[' are enough, whatever they end in. */
  lemma {:induction false} MovesDiffer(t: Stamp, path: Path, t': Stamp, path': Path)
    requires t.Valid() && t'.Valid() && '[' !in path && '[' !in path'
    requires Name(t, path, Move) == Name(t', path', Move)
    ensures t == t' && path == path'
  {
    NameDate(t, path, Move);
    NameDate(t', path', Move);
    assert Swap(path, '/', '[') + Suffix(Move) == Swap(path, '/', '[');
    assert Swap(path', '/', '[') + Suffix(Move) == Swap(path', '/', '[');
    SwapBack(path);
    SwapBack(path');
  }

  /** Without a clear path two files can meet in one trash file. */
  lemma NamesCollide(t: Stamp)
    requires t.Valid()
    ensures Name(t, "/a/b", Move) == Name(t, "/a[b", Move)
    ensures Name(t, "/a.enc", Move) == Name(t, "/a", Encrypt)
    ensures Name(t, "/a.enc", Compress) == Name(t, "/a", Both)
  {
    assert Swap("/a/b", '/', '[') == Swap("/a[b", '/', '[');
    assert Swap("/a.enc", '/', '[') == Swap("/a", '/', '[') + ENC;
    var front := PREFIX + Date(t);
    assert front + (Swap("/a", '/', '[') + ENC) == front + Swap("/a", '/', '[') + ENC;
    assert front + (Swap("/a", '/', '[') + ENC) + CMP == front + Swap("/a", '/', '[') + (ENC + CMP);
  }

  /** The trash file is never the file itself, nor one of the relative working files. */
  lemma NeverItself(t: Stamp, path: Path, op: Op)
    requires t.Valid()
    ensures Name(t, path, op) != path && Name(t, path, op)[0] == '/'
  {
    assert |Name(t, path, op)| > |path|;
  }

  // ----- the code -----

  method StrReplace(s: array<char>, from: char, to: char)
    modifies s
    ensures s[..] == Swap(old(s[..]), from, to)
  {
    var i := 0;
    while i < s.Length
      invariant 0 <= i <= s.Length
      invariant forall k :: 0 <= k < i ==> s[k] == if old(s[k]) == from then to else old(s[k])
      invariant forall k :: i <= k < s.Length ==> s[k] == old(s[k])
    {
      if s[i] == from {
        s[i] := to;
      }
      i := i + 1;
    }
  }

  /** The name is put together piece by piece; the path buffer is changed on the way. */
  method BuildName(t: Stamp, seconds: nat, path: array<char>, op: Op) returns (name: string)
    requires t.Valid() && t.hr == HourField(seconds) && t.min == MinuteField(seconds)
    modifies path
    ensures name == Name(t, old(path[..]), op) && TellsTime(name, seconds)
  {
    var tmp1 := seconds / 60;
    var min := tmp1 % 60;
    var tmp2 := tmp1 / 60;
    var hr := tmp2 % 24 - 4;
    name := "/usr";
    name := name + "/trashbin";
    name := name + "/";
    assert name == PREFIX;
    var date := Number(t.year);
    date := date + "-" + TwoChars(t.mon);
    date := date + "-" + TwoChars(t.mday);
    date := date + "-" + TwoChars(hr);
    date := date + ":" + TwoChars(min);
    date := date + "_";
    assert date == Date(t);
    StrReplace(path, '/', '[');
    name := name + date + path[..];
    if op == Encrypt || op == Both {
      name := name + ENC;
    }
    if op == Compress || op == Both {
      name := name + CMP;
    }
    assert name == Name(t, old(path[..]), op);
    NameTellsTime(t, seconds, old(path[..]), op);
  }
}
