/** One release of the Node.js distribution index (`/dist/index.json`) as the
    resolution loop sees it, and what reading its fields yields: the `lts`
    label, the `version` string, and the major number that `std::stoi`
    extracts from it. */
module ReleaseIndex {
  import opened Basics

  /** An object of the parsed index; a field the object lacks is `None`
      (`ptree::get<std::string>` throws for it). The JSON reader of
      Boost.PropertyTree keeps every value as text, so `"lts": false`
      arrives here as `Some("false")`. */
  datatype Entry = Entry(lts: Option<string>, version: Option<string>)

  /** `isspace` in the "C" locale. */
  predicate IsSpace(c: char)
  {
    c == ' ' || c == '\t' || c == '\n' || c == '\U{000B}' || c == '\U{000C}' || c == '\r'
  }

  predicate IsDigit(c: char)
  {
    '0' <= c <= '9'
  }

  predicate AllDigits(s: string)
  {
    forall j :: 0 <= j < |s| ==> IsDigit(s[j])
  }

  /** Drops the leading white space that `strtol` skips. */
  function SkipSpaces(s: string): (r: string)
    ensures |r| <= |s| && r == s[|s| - |r|..]
    ensures r == [] || !IsSpace(r[0])
    ensures forall j :: 0 <= j < |s| - |r| ==> IsSpace(s[j])
  {
    if s != [] && IsSpace(s[0]) then SkipSpaces(s[1..]) else s
  }

  /** Length of the run of decimal digits that starts `s`. */
  function DigitRun(s: string): (n: nat)
    ensures n <= |s|
    ensures forall j :: 0 <= j < n ==> IsDigit(s[j])
    ensures n == |s| || !IsDigit(s[n])
  {
    if s != [] && IsDigit(s[0]) then 1 + DigitRun(s[1..]) else 0
  }

  /** The number a string of decimal digits denotes. */
  function DecimalValue(ds: string): nat
    requires AllDigits(ds)
  {
    if ds == [] then 0
    else 10 * DecimalValue(ds[..|ds| - 1]) + (ds[|ds| - 1] as int - '0' as int)
  }

  /** The number `strtol` reads from `u` once white space and sign are gone:
      at least one digit, the digits after the first non-digit ignored, and
      `None` when the value does not fit an `int`. */
  function SignedValue(negative: bool, u: string): (r: Option<int>)
    ensures r.Some? ==> INT_MIN <= r.value <= INT_MAX
    ensures r.Some? ==> u != []
  {
    var n := DigitRun(u);
    if n == 0 then None
    else
      var magnitude: int := DecimalValue(u[..n]);
      var value: int := if negative then -magnitude else magnitude;
      if INT_MIN <= value <= INT_MAX then Some(value) else None
  }

  /** `std::stoi(s)` (base 10): optional white space, an optional sign and at
      least one digit; `None` where it throws, either because no digit starts
      the number (`invalid_argument`) or because the value does not fit an
      `int` (`out_of_range`). */
  function Stoi(s: string): (r: Option<int>)
    ensures r.Some? ==> INT_MIN <= r.value <= INT_MAX
    ensures r.Some? ==> s != []
  {
    var t := SkipSpaces(s);
    if t != [] && (t[0] == '-' || t[0] == '+') then SignedValue(t[0] == '-', t[1..])
    else SignedValue(false, t)
  }

  /** `v.substr(1, v.find('.', 1) - 1)`: the text after the first character
      up to the first `.` after it, or to the end when there is none. */
  function MajorText(v: string): string
    requires v != []
  {
    match Find(v, '.', 1)
    case Some(k) => v[1..k]
    case None => v[1..]
  }

  /** The major number the resolution loop computes from a version string;
      `None` where `substr` (empty string) or `stoi` throws. */
  function MajorOf(v: string): (r: Option<int>)
    ensures r.Some? ==> |v| >= 2
  {
    if v == [] then None else Stoi(MajorText(v))
  }

  /** What the `try` block of the resolution loop makes of one entry. */
  datatype Reading =
    | Threw                           // a missing field or an unparsable major: `catch (...)`
    | NotLts                          // the `lts` label is the empty string
    | Lts(version: string, major: int)

  function Read(e: Entry): (r: Reading)
    ensures r.Lts? ==> e.lts.Some? && e.lts.value != [] && e.version == Some(r.version)
    ensures r.Lts? ==> MajorOf(r.version) == Some(r.major) && |r.version| >= 2
    ensures r.NotLts? <==> e.lts == Some([])
  {
    match e.lts
    case None => Threw
    case Some(tag) =>
      if tag == [] then NotLts
      else
        match e.version
        case None => Threw
        case Some(v) =>
          match MajorOf(v)
          case None => Threw
          case Some(m) => Lts(v, m)
  }

  /** An entry reads as LTS exactly when its `lts` text is not empty and its
      version has a readable major. Only the empty label is excluded: the
      text `false` counts as an LTS label. */
  lemma ReadLtsIff(e: Entry)
    ensures Read(e).Lts? <==> e.lts.Some? && e.lts.value != [] && e.version.Some? && MajorOf(e.version.value).Some?
    ensures Read(e).Lts? ==> Read(e) == Lts(e.version.value, MajorOf(e.version.value).value)
  {
  }

  /** `stoi` of a string of digits reads exactly those digits. */
  lemma StoiOfDigits(ds: string)
    requires ds != [] && AllDigits(ds) && DecimalValue(ds) <= INT_MAX
    ensures Stoi(ds) == Some(DecimalValue(ds))
  {
    assert !IsSpace(ds[0]) && ds[0] != '-' && ds[0] != '+';
    assert SkipSpaces(ds) == ds;
    assert DigitRun(ds) == |ds|;
    assert ds[..|ds|] == ds;
  }

  predicate AllSpaces(s: string)
  {
    forall j :: 0 <= j < |s| ==> IsSpace(s[j])
  }

  lemma {:induction false} SkipSpacesOf(ws: string, x: string)
    requires AllSpaces(ws) && (x == [] || !IsSpace(x[0]))
    ensures SkipSpaces(ws + x) == x
    decreases |ws|
  {
    if ws == [] {
      assert ws + x == x;
    } else {
      assert (ws + x)[0] == ws[0] && (ws + x)[1..] == ws[1..] + x;
      SkipSpacesOf(ws[1..], x);
    }
  }

  lemma {:induction false} DigitRunOf(ds: string, rest: string)
    requires AllDigits(ds) && (rest == [] || !IsDigit(rest[0]))
    ensures DigitRun(ds + rest) == |ds|
    decreases |ds|
  {
    if ds == [] {
      assert ds + rest == rest;
    } else {
      assert (ds + rest)[0] == ds[0] && (ds + rest)[1..] == ds[1..] + rest;
      DigitRunOf(ds[1..], rest);
    }
  }

  /** The value `strtol` reads from a run of digits followed by text that
      does not continue it. */
  lemma SignedValueOf(negative: bool, ds: string, rest: string)
    requires ds != [] && AllDigits(ds) && (rest == [] || !IsDigit(rest[0]))
    ensures var m: int := DecimalValue(ds);
            var value := if negative then -m else m;
            SignedValue(negative, ds + rest) == if INT_MIN <= value <= INT_MAX then Some(value) else None
  {
    var u := ds + rest;
    DigitRunOf(ds, rest);
    PrefixOfConcat(ds, rest);
    var m: int := DecimalValue(ds);
    assert DecimalValue(u[..DigitRun(u)]) == m;
  }

  lemma PrefixOfConcat(a: string, b: string)
    ensures (a + b)[..|a|] == a
  {
  }

  /** Leading white space does not change what `stoi` reads. */
  lemma StoiAfterSpaces(ws: string, x: string)
    requires AllSpaces(ws) && (x == [] || !IsSpace(x[0]))
    ensures Stoi(ws + x) == Stoi(x)
  {
    SkipSpacesOf(ws, x);
    assert SkipSpaces(x) == x;
  }

  /** `std::stoi` of white space, an optional sign (`-` or `+`), a run of
      digits and any text that does not continue the run: the signed value
      of the digits when it fits an `int`, and a throw (`None`) when it does
      not. */
  lemma StoiOfNumber(ws: string, sign: string, ds: string, rest: string)
    requires AllSpaces(ws) && |sign| <= 1 && (sign != [] ==> sign[0] == '-' || sign[0] == '+')
    requires ds != [] && AllDigits(ds) && (rest == [] || !IsDigit(rest[0]))
    ensures var m: int := DecimalValue(ds);
            var value := if sign != [] && sign[0] == '-' then -m else m;
            Stoi(ws + sign + ds + rest) == if INT_MIN <= value <= INT_MAX then Some(value) else None
  {
    SignedValueOf(sign != [] && sign[0] == '-', ds, rest);
    Regroup(ws, sign, ds, rest);
    SignedHead(sign, ds, rest);
    StoiOfSigned(sign, ds + rest);
    StoiAfterSpaces(ws, sign + (ds + rest));
  }

  /** The text after the white space starts with the sign or a digit. */
  lemma SignedHead(sign: string, ds: string, rest: string)
    requires |sign| <= 1 && (sign != [] ==> sign[0] == '-' || sign[0] == '+')
    requires ds != [] && IsDigit(ds[0])
    ensures ds + rest != [] && IsDigit((ds + rest)[0])
    ensures var x := sign + (ds + rest); x != [] && !IsSpace(x[0])
  {
    var y := ds + rest;
    HeadOfConcat(ds, rest);
    if sign == [] {
      assert sign + y == y;
    } else {
      HeadOfConcat(sign, y);
    }
  }

  /** After the white space: an optional sign and then a digit. */
  lemma StoiOfSigned(sign: string, y: string)
    requires |sign| <= 1 && (sign != [] ==> sign[0] == '-' || sign[0] == '+')
    requires y != [] && IsDigit(y[0])
    ensures Stoi(sign + y) == SignedValue(sign != [] && sign[0] == '-', y)
  {
    if sign == [] {
      assert sign + y == y;
      StoiOfUnsigned(y);
    } else {
      var x := sign + y;
      assert x[0] == sign[0] && x[1..] == y;
      assert SkipSpaces(x) == x;
    }
  }

  lemma StoiOfUnsigned(y: string)
    requires y != [] && IsDigit(y[0])
    ensures Stoi(y) == SignedValue(false, y)
  {
    assert SkipSpaces(y) == y;
  }

  lemma Regroup(a: string, b: string, c: string, d: string)
    ensures a + b + c + d == a + (b + (c + d))
  {
  }

  lemma HeadOfConcat(a: string, b: string)
    requires a != []
    ensures (a + b)[0] == a[0]
  {
  }

  /** `std::stoi` throws when no digit follows the white space and the
      optional sign. */
  lemma StoiWithoutDigits(ws: string, sign: string, rest: string)
    requires AllSpaces(ws) && |sign| <= 1 && (sign != [] ==> sign[0] == '-' || sign[0] == '+')
    requires rest == [] || !IsDigit(rest[0])
    requires sign == [] ==> rest == [] || (!IsSpace(rest[0]) && rest[0] != '-' && rest[0] != '+')
    ensures Stoi(ws + sign + rest) == None
  {
    var x := sign + rest;
    assert ws + sign + rest == ws + x;
    if x != [] {
      assert x[0] == if sign == [] then rest[0] else sign[0];
    }
    SkipSpacesOf(ws, x);
    if sign != [] {
      assert x[1..] == rest;
    }
  }

  /** For a version `vA.B...` the major is the number written between the
      leading character and the first `.`. */
  lemma {:induction false} MajorOfRelease(lead: char, ds: string, rest: string)
    requires ds != [] && AllDigits(ds) && DecimalValue(ds) <= INT_MAX
    ensures MajorOf([lead] + ds + "." + rest) == Some(DecimalValue(ds))
  {
    var v := [lead] + ds + "." + rest;
    forall j | 1 <= j < 1 + |ds|
      ensures v[j] != '.'
    {
      assert v[j] == ds[j - 1];
    }
    assert v[1 + |ds|] == '.';
    var k := Find(v, '.', 1);
    assert k == Some(1 + |ds|);
    assert MajorText(v) == ds;
    StoiOfDigits(ds);
  }

  /** An entry with a non-empty label and a version `vA.B...` reads as LTS
      of major A. */
  lemma ReadRelease(e: Entry, lead: char, ds: string, rest: string)
    requires e.lts.Some? && e.lts.value != []
    requires e.version == Some([lead] + ds + "." + rest)
    requires ds != [] && AllDigits(ds) && DecimalValue(ds) <= INT_MAX
    ensures Read(e) == Lts(e.version.value, DecimalValue(ds))
  {
    MajorOfRelease(lead, ds, rest);
  }

  /** A version with no `.` after its first character, such as `v20`, takes the
      whole remainder as the major. */
  lemma MajorOfUndotted(lead: char, ds: string)
    requires ds != [] && AllDigits(ds) && DecimalValue(ds) <= INT_MAX
    ensures MajorOf([lead] + ds) == Some(DecimalValue(ds))
  {
    var v := [lead] + ds;
    TailOfCons(lead, ds);
    forall j | 1 <= j < |v|
      ensures v[j] != '.'
    {
      assert v[j] == v[1..][j - 1] && IsDigit(ds[j - 1]);
    }
    assert Find(v, '.', 1).None?;
    StoiOfDigits(ds);
  }

  lemma TailOfCons(lead: char, s: string)
    ensures ([lead] + s)[1..] == s
  {
  }

  lemma {:induction false} FindIgnoresBefore(s: string, t: string, c: char, from: nat)
    requires from <= |s| == |t| && s[from..] == t[from..]
    ensures Find(s, c, from) == Find(t, c, from)
    decreases |s| - from
  {
    if from < |s| {
      assert s[from] == s[from..][0] && t[from] == t[from..][0];
      assert s[from + 1..] == s[from..][1..];
      assert t[from + 1..] == t[from..][1..];
      FindIgnoresBefore(s, t, c, from + 1);
    }
  }

  /** The first byte of a version string is never examined: `x20.1` reads
      as major 20 just like `v20.1`. */
  lemma MajorIgnoresLead(a: char, b: char, rest: string)
    ensures MajorOf([a] + rest) == MajorOf([b] + rest)
  {
    var s, t := [a] + rest, [b] + rest;
    assert s[1..] == rest == t[1..];
    FindIgnoresBefore(s, t, '.', 1);
    assert MajorText(s) == MajorText(t);
  }
}
