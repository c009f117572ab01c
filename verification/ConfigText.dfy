// The text level of the configuration file: lines, blanks, comments, numbers.
module ConfigText {
  import opened Machine

  predicate IsBlank(c: char) {
    c == ' ' || c == '\t' || c == '\r' || c == '\n'
  }

  // What the C library's number parsers skip before a number.
  predicate IsSpace(c: char) {
    IsBlank(c) || c == '\U{000B}' || c == '\U{000C}'
  }

  // ---- Trimming ---------------------------------------------------------------------

  function TrimLeft(s: string): string {
    if s != "" && IsBlank(s[0]) then TrimLeft(s[1..]) else s
  }

  function TrimRight(s: string): string {
    if s != "" && IsBlank(s[|s| - 1]) then TrimRight(s[..|s| - 1]) else s
  }

  function Trim(s: string): string {
    TrimRight(TrimLeft(s))
  }

  predicate NoOuterBlank(s: string) {
    s != "" ==> !IsBlank(s[0]) && !IsBlank(s[|s| - 1])
  }

  lemma {:induction false} TrimLeftDrops(s: string) returns (n: nat)
    ensures n <= |s| && TrimLeft(s) == s[n..]
    ensures TrimLeft(s) != "" ==> !IsBlank(TrimLeft(s)[0])
  {
    n := 0;
    if s != "" && IsBlank(s[0]) {
      var m := TrimLeftDrops(s[1..]);
      n := m + 1;
      assert s[1..][m..] == s[n..];
    }
  }

  lemma {:induction false} TrimRightKeepsPrefix(s: string) returns (n: nat)
    ensures n <= |s| && TrimRight(s) == s[..n]
    ensures TrimRight(s) != "" ==> !IsBlank(TrimRight(s)[|TrimRight(s)| - 1])
  {
    n := |s|;
    if s != "" && IsBlank(s[|s| - 1]) {
      n := TrimRightKeepsPrefix(s[..|s| - 1]);
      assert s[..|s| - 1][..n] == s[..n];
    }
  }

  // A trimmed text has no outer blank and no character the original has not.
  lemma Trimmed(s: string)
    ensures NoOuterBlank(Trim(s))
    ensures forall c :: c in Trim(s) ==> c in s
  {
    var left := TrimLeft(s);
    var a := TrimLeftDrops(s);
    var b := TrimRightKeepsPrefix(left);
    assert forall c :: c in left[..b] ==> c in left;
    assert forall c :: c in s[a..] ==> c in s;
  }

  lemma TrimKeeps(s: string)
    requires NoOuterBlank(s)
    ensures Trim(s) == s
  {
  }

  // ---- Finding a character ------------------------------------------------------------

  function Find(s: string, c: char): (i: Option<nat>)
    ensures i.Some? ==> i.value < |s|
  {
    if s == "" then None
    else if s[0] == c then Some(0)
    else
      match Find(s[1..], c)
      case None => None
      case Some(i) => Some(i + 1)
  }

  // It is the first occurrence.
  lemma {:induction false} FindIsFirst(s: string, c: char)
    ensures Find(s, c).None? ==> c !in s
    ensures Find(s, c).Some? ==> s[Find(s, c).value] == c && c !in s[..Find(s, c).value]
  {
    if s != "" {
      FindIsFirst(s[1..], c);
      assert s == [s[0]] + s[1..];
      if Find(s, c).Some? && s[0] != c {
        var i := Find(s, c).value;
        assert s[..i] == [s[0]] + s[1..][..i - 1];
      }
    }
  }

  // The text up to the first occurrence.
  function Before(s: string, c: char): (r: string) {
    match Find(s, c)
    case None => s
    case Some(i) => s[..i]
  }

  lemma BeforeIsClean(s: string, c: char)
    ensures c !in Before(s, c)
    ensures c !in s ==> Before(s, c) == s
    ensures forall d :: d in Before(s, c) ==> d in s
  {
    FindIsFirst(s, c);
  }

  lemma {:induction false} FindAfter(name: string, c: char, rest: string)
    requires c !in name
    ensures Find(name + [c] + rest, c) == Some(|name|)
  {
    var s := name + [c] + rest;
    if name == "" {
      assert s[0] == c;
    } else {
      assert s[1..] == name[1..] + [c] + rest && s[0] == name[0];
      FindAfter(name[1..], c, rest);
    }
  }

  // What c_str() keeps of a text.
  function CStr(s: string): string {
    Before(s, '\0')
  }

  // ---- Numbers -------------------------------------------------------------------------

  predicate IsDigit(c: char) {
    '0' <= c <= '9'
  }

  predicate AllDigits(s: string) {
    s == "" || (IsDigit(s[|s| - 1]) && AllDigits(s[..|s| - 1]))
  }

  function DecimalValue(digits: string): nat
    requires AllDigits(digits)
  {
    if digits == "" then 0
    else 10 * DecimalValue(digits[..|digits| - 1]) + (digits[|digits| - 1] - '0') as int
  }

  function PrintNat(n: nat): (s: string)
    ensures s != "" && IsDigit(s[0])
  {
    if n < 10 then ['0' + n as char] else PrintNat(n / 10) + ['0' + (n % 10) as char]
  }

  function PrintInt(n: int): string {
    if n < 0 then "-" + PrintNat(0 - n) else PrintNat(n)
  }

  lemma {:induction false} PrintedValue(n: nat)
    ensures AllDigits(PrintNat(n)) && DecimalValue(PrintNat(n)) == n
  {
    var s := PrintNat(n);
    if n < 10 {
      assert s[..0] == "";
    } else {
      PrintedValue(n / 10);
      assert s[..|s| - 1] == PrintNat(n / 10);
    }
  }

  function SkipSpace(s: string): string {
    if s != "" && IsSpace(s[0]) then SkipSpace(s[1..]) else s
  }

  datatype Signed = Signed(negative: bool, magnitude: nat)

  // A whole text that is a number: spaces, at most one sign, at least one digit.
  function ParseSigned(s: string): Option<Signed> {
    var t := SkipSpace(s);
    var signed := t != "" && (t[0] == '-' || t[0] == '+');
    var digits := if signed then t[1..] else t;
    if digits == "" || !AllDigits(digits) then None
    else Some(Signed(signed && t[0] == '-', DecimalValue(digits)))
  }

  // A minus sign is refused only as the very first character; behind spaces the
  // library negates modulo 2^64.
  function ParseU64(s: string): (r: Option<uint64>) {
    if s == "" || s[0] == '-' then None
    else
      match ParseSigned(s)
      case None => None
      case Some(n) =>
        if n.magnitude > UINT64_MAX then None
        else Some(if n.negative then (0x1_0000_0000_0000_0000 - n.magnitude) % 0x1_0000_0000_0000_0000 else n.magnitude)
  }

  function ParseU32(s: string, allowZero: bool): (r: Option<uint32>)
    ensures r.Some? && !allowZero ==> r.value > 0
  {
    match ParseU64(s)
    case None => None
    case Some(n) => if n > UINT32_MAX || (!allowZero && n == 0) then None else Some(n)
  }

  function ParseInt(s: string): (r: Option<int32>) {
    match ParseSigned(s)
    case None => None
    case Some(n) =>
      var value: int := if n.negative then 0 - n.magnitude else n.magnitude;
      if value < INT64_MIN || value > INT64_MAX || value < INT32_MIN || value > INT32_MAX then None else Some(value)
  }

  // A negative number is accepted for an unsigned option exactly if the minus sign
  // is not the first character. In a trimmed value that means a vertical tab or a
  // form feed before it; a 32-bit option then needs a magnitude close to 2^64.
  lemma NegativeUnsigned(s: string, allowZero: bool)
    requires ParseSigned(s).Some? && ParseSigned(s).value.negative && ParseSigned(s).value.magnitude > 0
    ensures var m := ParseSigned(s).value.magnitude;
            && s != ""
            && (ParseU64(s).Some? <==> s[0] != '-' && m <= UINT64_MAX)
            && (ParseU64(s).Some? ==> ParseU64(s).value == 0x1_0000_0000_0000_0000 - m)
            && (ParseU32(s, allowZero).Some? <==> s[0] != '-' && UINT64_MAX - UINT32_MAX < m <= UINT64_MAX)
    ensures NoOuterBlank(s) ==> (s[0] != '-' <==> s[0] == '\U{000B}' || s[0] == '\U{000C}')
  {
  }

  lemma MinusFiveBehindTab()
    ensures ParseSigned("\U{000B}-5") == Some(Signed(true, 5))
    ensures ParseU64("\U{000B}-5") == Some(0x1_0000_0000_0000_0000 - 5)
    ensures NoOuterBlank("\U{000B}-5") && '#' !in "\U{000B}-5" && '\n' !in "\U{000B}-5"
  {
    var s := "\U{000B}-5";
    assert s[1..] == "-5" && "-5"[1..] == "5" && "5"[..0] == "";
    assert SkipSpace("-5") == "-5";
    assert DecimalValue("5") == 5;
  }

  function ToLower(s: string): (r: string)
    ensures |r| == |s|
  {
    if s == "" then "" else [if 'A' <= s[0] <= 'Z' then s[0] - 'A' + 'a' else s[0]] + ToLower(s[1..])
  }

  function ParseBool(s: string): Option<bool> {
    var lower := ToLower(s);
    if lower == "true" || lower == "1" || lower == "yes" then Some(true)
    else if lower == "false" || lower == "0" || lower == "no" then Some(false)
    else None
  }

  function PrintBool(b: bool): string {
    if b then "true" else "false"
  }

  lemma ParsePrintedNat(n: nat)
    ensures ParseSigned(PrintNat(n)) == Some(Signed(false, n)) && PrintNat(n)[0] != '-'
  {
    var s := PrintNat(n);
    assert IsDigit(s[0]);
    PrintedValue(n);
  }

  lemma ParseNegated(n: nat)
    ensures ParseSigned("-" + PrintNat(n)) == Some(Signed(true, n))
  {
    var s := "-" + PrintNat(n);
    assert s[0] == '-' && s[1..] == PrintNat(n);
    assert SkipSpace(s) == s;
    PrintedValue(n);
  }

  lemma ParsePrintedNegative(n: int32)
    requires n < 0
    ensures ParseInt("-" + PrintNat(0 - n)) == Some(n)
  {
    ParseNegated(0 - n);
  }

  lemma ParsePrintedNonNegative(n: int32)
    requires n >= 0
    ensures ParseInt(PrintNat(n)) == Some(n)
  {
    ParsePrintedNat(n);
  }

  lemma ParsePrintedInt(n: int32)
    ensures ParseInt(PrintInt(n)) == Some(n)
  {
    if n < 0 { ParsePrintedNegative(n); } else { ParsePrintedNonNegative(n); }
  }

  lemma ParsePrintedBool(b: bool)
    ensures ParseBool(PrintBool(b)) == Some(b)
  {
    LowerIsKept("true");
    LowerIsKept("false");
  }

  lemma {:induction false} LowerIsKept(s: string)
    requires forall k :: 0 <= k < |s| ==> 'a' <= s[k] <= 'z'
    ensures ToLower(s) == s
  {
    if s != "" {
      LowerIsKept(s[1..]);
      assert s == [s[0]] + s[1..];
    }
  }

  // ---- Lines -----------------------------------------------------------------------------

  // The next line and what follows it, as getline reads them.
  function GetLine(text: string): (r: (string, string))
    ensures text != "" ==> |r.1| < |text|
  {
    match Find(text, '\n')
    case None => (text, "")
    case Some(i) => (text[..i], text[i + 1..])
  }

  function Lines(text: string): seq<string>
    decreases |text|
  {
    if text == "" then [] else [GetLine(text).0] + Lines(GetLine(text).1)
  }

  function Join(lines: seq<string>): string {
    if lines == [] then "" else lines[0] + "\n" + Join(lines[1..])
  }

  lemma GetLineOfJoin(line: string, rest: string)
    requires '\n' !in line
    ensures GetLine(line + "\n" + rest) == (line, rest)
  {
    var text := line + "\n" + rest;
    assert text == line + ['\n'] + rest;
    FindAfter(line, '\n', rest);
    assert text[..|line|] == line && text[|line| + 1..] == rest;
  }

  lemma LinesOfFirst(line: string, rest: string)
    requires '\n' !in line
    ensures Lines(line + "\n" + rest) == [line] + Lines(rest)
  {
    GetLineOfJoin(line, rest);
  }

  lemma JoinFirst(lines: seq<string>, rest: string)
    requires lines != []
    ensures Join(lines) + rest == lines[0] + "\n" + (Join(lines[1..]) + rest)
  {
  }

  predicate OneLiners(lines: seq<string>) {
    lines == [] || ('\n' !in lines[0] && OneLiners(lines[1..]))
  }

  lemma {:induction false} LinesOfJoin(lines: seq<string>, rest: string)
    requires OneLiners(lines)
    ensures Lines(Join(lines) + rest) == lines + Lines(rest)
  {
    if lines == [] {
      assert Join(lines) + rest == rest;
    } else {
      var first, more := lines[0], lines[1..];
      JoinFirst(lines, rest);
      LinesOfFirst(first, Join(more) + rest);
      LinesOfJoin(more, rest);
      FirstAndMore(lines, Lines(rest));
    }
  }

  lemma FirstAndMore(lines: seq<string>, rest: seq<string>)
    requires lines != []
    ensures [lines[0]] + (lines[1..] + rest) == lines + rest
  {
  }

  lemma {:induction false} JoinAppend(a: seq<string>, b: seq<string>)
    ensures Join(a + b) == Join(a) + Join(b)
  {
    if a == [] {
      assert a + b == b;
    } else {
      JoinAppend(a[1..], b);
      assert (a + b)[1..] == a[1..] + b;
    }
  }
}
