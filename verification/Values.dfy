/** Which values fields accept, and what instants look like as texts (types/types.go and the kinds beside it). */
module Values {
  import opened Common
  import opened Types
  import opened Sql
  import opened Comparisons

  // ---------------------------------------------------------------- instants

  datatype Instant = Instant(year: nat, month: nat, day: nat, hour: nat, minute: nat, second: nat)

  predicate InCalendar(i: Instant) {
    && i.year <= 9999 && 1 <= i.month <= 12 && i.hour <= 23 && i.minute <= 59 && i.second <= 59
    && 1 <= i.day <= (match i.month
                      case 2 => if i.year % 4 == 0 && (i.year % 100 != 0 || i.year % 400 == 0) then 29 else 28
                      case 4 => 30
                      case 6 => 30
                      case 9 => 30
                      case 11 => 30
                      case _ => 31)
  }

  predicate Earlier(i: Instant, j: Instant) {
    if i.year != j.year then i.year < j.year
    else if i.month != j.month then i.month < j.month
    else if i.day != j.day then i.day < j.day
    else if i.hour != j.hour then i.hour < j.hour
    else if i.minute != j.minute then i.minute < j.minute
    else i.second < j.second
  }

  function Two(n: nat): string
    requires n < 100
  {
    [('0' as int + n / 10) as char, ('0' as int + n % 10) as char]
  }

  /** 2006-01-02T15:04:05Z */
  function Written(i: Instant): string
    requires InCalendar(i)
  {
    Two(i.year / 100) + Two(i.year % 100) + "-" + Two(i.month) + "-" + Two(i.day)
    + "T" + Two(i.hour) + ":" + Two(i.minute) + ":" + Two(i.second) + "Z"
  }

  function ReadInstant(s: string): Instant
    requires CanonicalTime(s)
  {
    Instant(100 * Digits2(s, 0) + Digits2(s, 2), Digits2(s, 5), Digits2(s, 8), Digits2(s, 11), Digits2(s, 14),
      Digits2(s, 17))
  }

  lemma TwoReads(s: string, i: nat)
    requires i + 2 <= |s| && IsDigit(s[i]) && IsDigit(s[i + 1])
    ensures 0 <= Digits2(s, i) < 100 && s[i..i + 2] == Two(Digits2(s, i))
  {
  }

  lemma TwoIs(n: nat)
    requires n < 100
    ensures |Two(n)| == 2 && IsDigit(Two(n)[0]) && IsDigit(Two(n)[1]) && Digits2(Two(n), 0) == n
  {
  }

  /** The texts accepted as instants are exactly those some instant is written as, and reading gives it back. */
  lemma TimeIsWrittenInstant(s: string)
    ensures CanonicalTime(s) <==> exists i :: InCalendar(i) && s == Written(i)
    ensures CanonicalTime(s) ==> InCalendar(ReadInstant(s)) && s == Written(ReadInstant(s))
  {
    if CanonicalTime(s) { ReadIsWritten(s); }
    if i :| InCalendar(i) && s == Written(i) { WrittenIsCanonical(i); }
  }

  lemma ReadIsWritten(s: string)
    requires CanonicalTime(s)
    ensures InCalendar(ReadInstant(s)) && s == Written(ReadInstant(s))
  {
    forall i | i in {0, 2, 5, 8, 11, 14, 17} ensures 0 <= Digits2(s, i) < 100 && s[i..i + 2] == Two(Digits2(s, i)) {
      TwoReads(s, i);
    }
    hide Two, Digits2;
    var i := ReadInstant(s);
    assert i.year / 100 == Digits2(s, 0) && i.year % 100 == Digits2(s, 2);
    assert s == s[0..2] + s[2..4] + "-" + s[5..7] + "-" + s[8..10] + "T" + s[11..13] + ":" + s[14..16] + ":"
      + s[17..19] + "Z";
  }

  lemma WrittenPieces(i: Instant)
    requires InCalendar(i)
    ensures
      var s := Written(i);
      && |s| == 20 && s[4] == '-' && s[7] == '-' && s[10] == 'T' && s[13] == ':' && s[16] == ':' && s[19] == 'Z'
      && s[0..2] == Two(i.year / 100) && s[2..4] == Two(i.year % 100) && s[5..7] == Two(i.month)
      && s[8..10] == Two(i.day) && s[11..13] == Two(i.hour) && s[14..16] == Two(i.minute) && s[17..19] == Two(i.second)
  {
    TwoIs(i.year / 100);
    TwoIs(i.year % 100);
    TwoIs(i.month);
    TwoIs(i.day);
    TwoIs(i.hour);
    TwoIs(i.minute);
    TwoIs(i.second);
    hide Two, Digits2;
  }

  lemma PieceReads(s: string, k: nat, n: nat)
    requires k + 2 <= |s| && n < 100 && s[k..k + 2] == Two(n)
    ensures IsDigit(s[k]) && IsDigit(s[k + 1]) && Digits2(s, k) == n
  {
    TwoIs(n);
    hide Two;
    assert s[k] == s[k..k + 2][0] && s[k + 1] == s[k..k + 2][1];
  }

  lemma WrittenIsCanonical(i: Instant)
    requires InCalendar(i)
    ensures CanonicalTime(Written(i)) && ReadInstant(Written(i)) == i
  {
    WrittenPieces(i);
    var s := Written(i);
    PieceReads(s, 0, i.year / 100);
    PieceReads(s, 2, i.year % 100);
    PieceReads(s, 5, i.month);
    PieceReads(s, 8, i.day);
    PieceReads(s, 11, i.hour);
    PieceReads(s, 14, i.minute);
    PieceReads(s, 17, i.second);
    hide Two, Written, Digits2, IsDigit;
    assert 100 * (i.year / 100) + i.year % 100 == i.year;
  }

  /** Texts of one width compare by their first part, and by the rest if those are equal. */
  lemma {:induction false} FirstPartDecides(a: string, b: string, c: string, d: string)
    requires |a| == |c|
    ensures TextLess(a + b, c + d) <==> TextLess(a, c) || (a == c && TextLess(b, d))
    decreases |a|
  {
    if a == "" {
      assert a + b == b && c + d == d;
    } else {
      FirstPartDecides(a[1..], b, c[1..], d);
      assert (a + b)[1..] == a[1..] + b && (c + d)[1..] == c[1..] + d;
      assert a == c <==> a[0] == c[0] && a[1..] == c[1..];
    }
  }

  lemma TwoCompare(m: nat, n: nat)
    requires m < 100 && n < 100
    ensures TextLess(Two(m), Two(n)) <==> m < n
    ensures Two(m) == Two(n) <==> m == n
  {
    var (a, b) := (Two(m), Two(n));
    assert a == [a[0]] + [a[1]] && b == [b[0]] + [b[1]];
    FirstPartDecides([a[0]], [a[1]], [b[0]], [b[1]]);
    OneCharacter(a[0], b[0]);
    OneCharacter(a[1], b[1]);
  }

  lemma OneCharacter(a: char, b: char)
    ensures TextLess([a], [b]) <==> a < b
  {
    assert [a][1..] == [] && [b][1..] == [];
  }

  lemma NumberDecides(m: nat, n: nat, sep: string, b: string, d: string)
    requires m < 100 && n < 100
    ensures TextLess(Two(m) + sep + b, Two(n) + sep + d) <==> m < n || (m == n && TextLess(b, d))
  {
    TwoCompare(m, n);
    FirstPartDecides(Two(m), sep + b, Two(n), sep + d);
    FirstPartDecides(sep, b, sep, d);
    TextIrreflexive(sep);
    assert Two(m) + sep + b == Two(m) + (sep + b) && Two(n) + sep + d == Two(n) + (sep + d);
    hide Two;
  }

  lemma {:induction false} TextIrreflexive(a: string)
    ensures !TextLess(a, a)
    decreases |a|
  {
    if a != "" { TextIrreflexive(a[1..]); }
  }

  function Clock(i: Instant): string
    requires InCalendar(i)
  {
    Two(i.hour) + ":" + (Two(i.minute) + ":" + (Two(i.second) + "Z" + ""))
  }

  function MonthAndLater(i: Instant): string
    requires InCalendar(i)
  {
    Two(i.month) + "-" + (Two(i.day) + "T" + Clock(i))
  }

  predicate EarlierClock(i: Instant, j: Instant) {
    if i.hour != j.hour then i.hour < j.hour
    else if i.minute != j.minute then i.minute < j.minute
    else i.second < j.second
  }

  predicate EarlierInYear(i: Instant, j: Instant) {
    if i.month != j.month then i.month < j.month
    else if i.day != j.day then i.day < j.day
    else EarlierClock(i, j)
  }

  lemma ClocksCompare(i: Instant, j: Instant)
    requires InCalendar(i) && InCalendar(j)
    ensures TextLess(Clock(i), Clock(j)) <==> EarlierClock(i, j)
  {
    var s, t := Two(i.second) + "Z" + "", Two(j.second) + "Z" + "";
    NumberDecides(i.second, j.second, "Z", "", "");
    NumberDecides(i.minute, j.minute, ":", s, t);
    NumberDecides(i.hour, j.hour, ":", Two(i.minute) + ":" + s, Two(j.minute) + ":" + t);
    TextIrreflexive("");
    hide TextLess, Two, InCalendar;
  }

  lemma MonthsCompare(i: Instant, j: Instant)
    requires InCalendar(i) && InCalendar(j)
    ensures TextLess(MonthAndLater(i), MonthAndLater(j)) <==> EarlierInYear(i, j)
  {
    ClocksCompare(i, j);
    NumberDecides(i.day, j.day, "T", Clock(i), Clock(j));
    NumberDecides(i.month, j.month, "-", Two(i.day) + "T" + Clock(i), Two(j.day) + "T" + Clock(j));
    hide TextLess, Two, Clock, InCalendar, EarlierClock;
  }

  lemma WrittenParts(i: Instant)
    requires InCalendar(i)
    ensures Written(i) == Two(i.year / 100) + "" + (Two(i.year % 100) + "-" + MonthAndLater(i))
  {
    hide Two;
  }

  /** The texts of instants compare as the instants do. */
  lemma TextOrderIsTimeOrder(i: Instant, j: Instant)
    requires InCalendar(i) && InCalendar(j)
    ensures TextBefore(Written(i), Written(j)) <==> Earlier(i, j)
  {
    TextLessIs(Written(i), Written(j));
    MonthsCompare(i, j);
    WrittenParts(i);
    WrittenParts(j);
    Hundreds(i.year, j.year);
    hide TextLess, TextBefore, Two, MonthAndLater, Written, InCalendar;
    NumberDecides(i.year % 100, j.year % 100, "-", MonthAndLater(i), MonthAndLater(j));
    NumberDecides(i.year / 100, j.year / 100, "", Two(i.year % 100) + "-" + MonthAndLater(i),
      Two(j.year % 100) + "-" + MonthAndLater(j));
  }

  lemma Hundreds(m: nat, n: nat)
    ensures m < n <==> m / 100 < n / 100 || (m / 100 == n / 100 && m % 100 < n % 100)
    ensures m == n <==> m / 100 == n / 100 && m % 100 == n % 100
  {
  }

  // ---------------------------------------------------------------- accepted values

  /** What a field of each simple kind accepts. */
  lemma SimpleKindsAccept(f: FieldDef, v: Value)
    ensures f.kind in {Text, Textarea, Richtext, Image, File} ==> (ValidateValue(f, v) <==> v.Str?)
    ensures f.kind == Number ==> (ValidateValue(f, v) <==> v.Int? || v.Float?)
    ensures f.kind == Boolean ==> (ValidateValue(f, v) <==> v.Bool?)
    ensures f.kind == Select ==> (ValidateValue(f, v) <==> v.Str? && v.s in f.options)
    ensures f.kind == Timestamp ==> (ValidateValue(f, v) <==> exists i :: InCalendar(i) && v == Str(Written(i)))
    ensures f.kind == Slug ==> (ValidateValue(f, v) <==> v.Str? && (v.s == "" || ValidSlug(v.s)))
    ensures f.kind == Gallery ==>
      (ValidateValue(f, v) <==> v.List? && forall i :: 0 <= i < |v.items| ==> v.items[i].Str?)
  {
    if f.kind == Timestamp && v.Str? { TimeIsWrittenInstant(v.s); }
    hide CanonicalTime, Written, InCalendar, ValidSlug;
  }

  predicate DoubleDash(s: string, i: int) { 0 <= i <= |s| - 2 && s[i..i + 2] == "--" }

  predicate Letter(c: char) { 'a' <= c <= 'z' || 'A' <= c <= 'Z' }

  predicate SlugCharacter(c: char) { Letter(c) || '0' <= c <= '9' || c == '_' || c == '-' }

  /** A slug starts with a letter, is made of letters, digits, underscores and dashes, and holds no double dash. */
  lemma SlugIs(s: string)
    ensures ValidSlug(s)
      <==> s != "" && Letter(s[0]) && (forall c :: c in s ==> SlugCharacter(c)) && forall i :: !DoubleDash(s, i)
  {
    forall i ensures DoubleDash(s, i) <==> 0 <= i < |s| - 1 && s[i] == '-' && s[i + 1] == '-' {
      if 0 <= i < |s| - 1 { assert s[i..i + 2] == [s[i], s[i + 1]]; }
    }
    hide DoubleDash;
    if s != "" && Letter(s[0]) {
      forall i | 1 <= i < |s|
        ensures SlugCharacter(s[i]) <==> IsLetter(s[i]) || IsDigit(s[i]) || s[i] == '_' || s[i] == '-' {}
      assert (forall i :: 1 <= i < |s| ==> SlugCharacter(s[i])) <==> forall c :: c in s ==> SlugCharacter(c);
      if forall i :: !DoubleDash(s, i) {
        forall i | 1 <= i < |s| - 1 ensures !(s[i] == '-' && s[i + 1] == '-') { assert !DoubleDash(s, i); }
      } else {
        var i :| DoubleDash(s, i);
        assert s[i] == '-' && s[i + 1] == '-' && i != 0;
        assert !ValidSlug(s);
      }
    }
  }

  /** The White_Space property of Unicode, character by character. */
  const WHITE_SPACE := "\t\n\U{B}\U{C}\r \U{85}\U{A0}\U{1680}\U{2000}\U{2001}\U{2002}\U{2003}\U{2004}\U{2005}"
    + "\U{2006}\U{2007}\U{2008}\U{2009}\U{200A}\U{2028}\U{2029}\U{202F}\U{205F}\U{3000}"

  lemma SpaceIs(c: char)
    ensures IsSpace(c) <==> c in WHITE_SPACE
  {
    var w := WHITE_SPACE;
    if c in w {
      var i :| 0 <= i < |w| && w[i] == c;
    }
    if IsSpace(c) {
      assert |w| == 25;
      if '\t' <= c <= '\r' { assert w[c as int - 9] == c; }
      else if c == ' ' { assert w[5] == c; }
      else if c == '\U{85}' { assert w[6] == c; }
      else if c == '\U{A0}' { assert w[7] == c; }
      else if c == '\U{1680}' { assert w[8] == c; }
      else if '\U{2000}' <= c <= '\U{200A}' { assert w[9 + c as int - 0x2000] == c; }
      else if c == '\U{2028}' { assert w[20] == c; }
      else if c == '\U{2029}' { assert w[21] == c; }
      else if c == '\U{202F}' { assert w[22] == c; }
      else if c == '\U{205F}' { assert w[23] == c; }
      else { assert w[24] == c; }
    }
  }

  /** What counts as missing among the values a field accepts: blank texts and empty containers, but no instant. */
  lemma EmptyValues(f: FieldDef, v: Value)
    requires ValidateValue(f, v)
    ensures IsEmpty(f.kind, v)
      <==>
      || v in [List([]), Ids([]), Obj(map[])]
      || (v.Str? && f.kind != Timestamp && forall c :: c in v.s ==> c in WHITE_SPACE)
  {
    forall c ensures IsSpace(c) <==> c in WHITE_SPACE { SpaceIs(c); }
    hide ValidSlug, IsSpace, WHITE_SPACE;
    if f.kind == Timestamp { TimesAreNotEmpty(v.s); }
  }

  lemma TimesAreNotEmpty(s: string)
    ensures CanonicalTime(s) ==> s != ""
  {
  }

  // ---------------------------------------------------------------- nested values

  /** A step down into a composite value. */
  datatype Down = Key(k: string) | Index(i: int)

  /** The definition and the value some steps below, through the items of arrays and the declared keys of objects. */
  function Below(f: FieldDef, v: Value, path: seq<Down>): Option<(FieldDef, Value)>
    decreases |path|
  {
    if path == [] then Some((f, v))
    else
      match path[0]
      case Index(i) =>
        if f.kind == Array && f.item.Some? && v.List? && 0 <= i < |v.items|
        then Below(f.item.value, v.items[i], path[1..]) else None
      case Key(k) =>
        if f.kind == Object && v.Obj? && k in v.entries && FieldByName(f.fields, k).Some?
        then Below(FieldByName(f.fields, k).value, v.entries[k], path[1..]) else None
  }

  /** The shape a definition asks for at its own place: a list, an object of declared keys, or a simple value. */
  predicate Shaped(f: FieldDef, v: Value) {
    match f.kind
    case Array => v.List? && f.item.Some?
    case Object =>
      && v.Obj? && (forall k :: k in v.entries ==> FieldByName(f.fields, k).Some?)
      && forall sub :: sub in f.fields && sub.required ==>
           sub.name in v.entries && !IsEmpty(sub.kind, v.entries[sub.name])
    case _ => ValidateValue(f, v)
  }

  /** A value is accepted exactly when every value nested in it has the shape declared for its place. */
  lemma {:induction false} AcceptedIffShapedBelow(f: FieldDef, v: Value)
    ensures ValidateValue(f, v)
      <==> forall path :: Below(f, v, path).Some? ==> Shaped(Below(f, v, path).value.0, Below(f, v, path).value.1)
    decreases v
  {
    hide IsEmpty, KindAccepts;
    if ValidateValue(f, v) {
      forall path | Below(f, v, path).Some?
        ensures Shaped(Below(f, v, path).value.0, Below(f, v, path).value.1)
      {
        AcceptedIsShapedBelow(f, v, path);
      }
    } else if Shaped(f, v) {
      UnshapedBelow(f, v);
    } else {
      var here: seq<Down> := [];
      assert Below(f, v, here) == Some((f, v));
      assert !Shaped(Below(f, v, here).value.0, Below(f, v, here).value.1);
    }
  }

  lemma RequiredIsIrrelevant(f: FieldDef, v: Value)
    ensures ValidateValue(f.(required := false), v) <==> ValidateValue(f, v)
  {
    hide IsEmpty, CanonicalTime, ValidSlug;
  }

  lemma {:induction false} AcceptedIsShapedBelow(f: FieldDef, v: Value, path: seq<Down>)
    requires ValidateValue(f, v) && Below(f, v, path).Some?
    ensures Shaped(Below(f, v, path).value.0, Below(f, v, path).value.1)
    decreases |path|
  {
    hide IsEmpty, KindAccepts;
    if path != [] {
      match path[0]
      case Index(i) =>
        RequiredIsIrrelevant(f.item.value, v.items[i]);
        AcceptedIsShapedBelow(f.item.value, v.items[i], path[1..]);
      case Key(k) => AcceptedIsShapedBelow(FieldByName(f.fields, k).value, v.entries[k], path[1..]);
    }
  }

  /** A refused value of the right shape holds a refused one directly below, and so an ill-shaped one somewhere. */
  lemma {:induction false} UnshapedBelow(f: FieldDef, v: Value)
    requires !ValidateValue(f, v) && Shaped(f, v)
    ensures exists path :: Below(f, v, path).Some? && !Shaped(Below(f, v, path).value.0, Below(f, v, path).value.1)
    decreases v, 0
  {
    hide IsEmpty, KindAccepts;
    if f.kind == Array {
      var i :| 0 <= i < |v.items| && !ValidateValue(f.item.value.(required := false), v.items[i]);
      RequiredIsIrrelevant(f.item.value, v.items[i]);
      BelowIs(f, v, Index(i));
      BelowOne(f, v, Index(i), f.item.value, v.items[i]);
    } else {
      var k :| k in v.entries && !ValidateValue(FieldByName(f.fields, k).value, v.entries[k]);
      BelowIs(f, v, Key(k));
      BelowOne(f, v, Key(k), FieldByName(f.fields, k).value, v.entries[k]);
    }
  }

  lemma BelowIs(f: FieldDef, v: Value, step: Down)
    ensures step.Index? && f.kind == Array && f.item.Some? && v.List? && 0 <= step.i < |v.items| ==>
      Below(f, v, [step]) == Some((f.item.value, v.items[step.i]))
    ensures step.Key? && f.kind == Object && v.Obj? && step.k in v.entries && FieldByName(f.fields, step.k).Some? ==>
      Below(f, v, [step]) == Some((FieldByName(f.fields, step.k).value, v.entries[step.k]))
  {
    assert [step][1..] == [];
  }

  lemma {:induction false} BelowOne(f: FieldDef, v: Value, step: Down, g: FieldDef, w: Value)
    requires Below(f, v, [step]) == Some((g, w)) && !ValidateValue(g, w)
    ensures exists path :: Below(f, v, path).Some? && !Shaped(Below(f, v, path).value.0, Below(f, v, path).value.1)
    decreases w, 1
  {
    hide ValidateValue;
    var rest: seq<Down> := [];
    if Shaped(g, w) {
      UnshapedBelow(g, w);
      rest :| Below(g, w, rest).Some? && !Shaped(Below(g, w, rest).value.0, Below(g, w, rest).value.1);
    } else {
      assert Below(g, w, []) == Some((g, w));
    }
    BelowCons(f, v, step, g, w, rest);
  }

  lemma BelowCons(f: FieldDef, v: Value, step: Down, g: FieldDef, w: Value, rest: seq<Down>)
    requires Below(f, v, [step]) == Some((g, w))
    ensures Below(f, v, [step] + rest) == Below(g, w, rest)
  {
    assert [step][1..] == [] && ([step] + rest)[1..] == rest && ([step] + rest)[0] == step == [step][0];
    match step
    case Index(i) => assert Below(f.item.value, v.items[i], []) == Some((f.item.value, v.items[i]));
    case Key(k) =>
      var sub := FieldByName(f.fields, k).value;
      assert Below(sub, v.entries[k], []) == Some((sub, v.entries[k]));
  }
}
