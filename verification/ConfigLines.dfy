// What a line of the configuration file means, in terms of its characters.
module ConfigLines {
  import opened Machine
  import opened ConfigText
  import opened ConfigNames
  import opened Config

  // A value as it stands in a line: no outer blank and no comment sign.
  predicate IsBare(v: string) {
    NoOuterBlank(v) && '#' !in v
  }

  lemma BareLine(options: Options, key: Key, v: string)
    requires IsBare(v)
    ensures LoadLine(options, NameOf(key) + "=" + v) ==
            match ParseValue(KindOf(key), v)
            case None => None
            case Some(value) => Some(options[key := value])
  {
    LoadsSetting(options, key, v);
    CommentFreeIsKept(v);
  }

  // ---- Flags ---------------------------------------------------------------------------------

  // The word, in letters of either case.
  predicate Spells(v: string, word: string) {
    && |v| == |word|
    && forall i :: 0 <= i < |v| ==> v[i] == word[i] || ('A' <= v[i] <= 'Z' && word[i] == v[i] - 'A' + 'a')
  }

  predicate HasNoCapital(word: string) {
    forall i :: 0 <= i < |word| ==> !('A' <= word[i] <= 'Z')
  }

  lemma {:induction false} LowerSpells(v: string, word: string)
    requires HasNoCapital(word)
    ensures ToLower(v) == word <==> Spells(v, word)
  {
    if v != "" && |v| == |word| {
      LowerSpells(v[1..], word[1..]);
      var first := if 'A' <= v[0] <= 'Z' then v[0] - 'A' + 'a' else v[0];
      assert ToLower(v) == [first] + ToLower(v[1..]);
      assert word == [word[0]] + word[1..];
      assert ToLower(v) == word <==> first == word[0] && ToLower(v[1..]) == word[1..] by {
        if ToLower(v) == word { assert ToLower(v)[0] == word[0] && ToLower(v)[1..] == word[1..]; }
      }
      SpellsFirst(v, word);
    }
  }

  lemma SpellsFirst(v: string, word: string)
    requires v != "" && |v| == |word|
    ensures Spells(v, word) <==>
            (v[0] == word[0] || ('A' <= v[0] <= 'Z' && word[0] == v[0] - 'A' + 'a')) && Spells(v[1..], word[1..])
  {
    if Spells(v[1..], word[1..]) {
      forall i | 1 <= i < |v|
        ensures v[i] == word[i] || ('A' <= v[i] <= 'Z' && word[i] == v[i] - 'A' + 'a')
      {
        assert v[1..][i - 1] == v[i] && word[1..][i - 1] == word[i];
      }
    }
  }

  predicate IsYes(v: string) {
    Spells(v, "true") || Spells(v, "1") || Spells(v, "yes")
  }

  predicate IsNo(v: string) {
    Spells(v, "false") || Spells(v, "0") || Spells(v, "no")
  }

  // A flag is set by "true", "1" and "yes" in any case, cleared by "false", "0" and
  // "no", and any other value rejects the file.
  lemma FlagLine(options: Options, key: Key, v: string)
    requires KindOf(key) == KFlag && IsBare(v)
    ensures LoadLine(options, NameOf(key) + "=" + v) ==
            if IsYes(v) then Some(options[key := Flag(true)])
            else if IsNo(v) then Some(options[key := Flag(false)])
            else None
  {
    BareLine(options, key, v);
    FlagIsRead(v);
  }

  lemma FlagIsRead(v: string)
    ensures ParseBool(v) == if IsYes(v) then Some(true) else if IsNo(v) then Some(false) else None
  {
    LowerSpells(v, "true");
    LowerSpells(v, "1");
    LowerSpells(v, "yes");
    LowerSpells(v, "false");
    LowerSpells(v, "0");
    LowerSpells(v, "no");
  }

  // ---- Numbers -------------------------------------------------------------------------------

  // Spaces, at most one sign, and at least one digit.
  predicate IsNumeral(v: string, spaces: string, sign: string, digits: string) {
    && v == spaces + sign + digits
    && (forall i :: 0 <= i < |spaces| ==> IsSpace(spaces[i]))
    && (sign == "" || sign == "+" || sign == "-")
    && digits != "" && forall i :: 0 <= i < |digits| ==> IsDigit(digits[i])
  }

  function DigitValue(c: char): nat
    requires IsDigit(c)
  {
    (c - '0') as nat
  }

  function Pow10(n: nat): nat {
    if n == 0 then 1 else 10 * Pow10(n - 1)
  }

  // The first digit counts most.
  function PlaceValue(digits: string): nat
    requires forall i :: 0 <= i < |digits| ==> IsDigit(digits[i])
  {
    if digits == "" then 0 else DigitValue(digits[0]) * Pow10(|digits| - 1) + PlaceValue(digits[1..])
  }

  lemma {:induction false} DigitsAreDigits(s: string)
    ensures AllDigits(s) <==> forall i :: 0 <= i < |s| ==> IsDigit(s[i])
  {
    if s != "" {
      DigitsAreDigits(s[..|s| - 1]);
      assert forall i :: 0 <= i < |s| - 1 ==> s[..|s| - 1][i] == s[i];
    }
  }

  lemma {:induction false} PlaceValueOfLast(digits: string)
    requires digits != "" && forall i :: 0 <= i < |digits| ==> IsDigit(digits[i])
    ensures PlaceValue(digits) == 10 * PlaceValue(digits[..|digits| - 1]) + DigitValue(digits[|digits| - 1])
  {
    var n := |digits| - 1;
    if n == 0 {
      assert digits[1..] == "" && digits[..0] == "";
      assert Pow10(0) == 1;
    } else {
      PlaceValueOfLast(digits[1..]);
      assert digits[1..][..n - 1] == digits[..n][1..];
      assert digits[..n][0] == digits[0];
      TenTimes(DigitValue(digits[0]), n);
    }
  }

  lemma TenTimes(d: int, n: nat)
    requires n > 0
    ensures d * Pow10(n) == 10 * (d * Pow10(n - 1))
  {
  }

  lemma {:induction false} PlaceValueIsDecimal(digits: string)
    requires AllDigits(digits) && forall i :: 0 <= i < |digits| ==> IsDigit(digits[i])
    ensures PlaceValue(digits) == DecimalValue(digits)
  {
    if digits != "" {
      PlaceValueOfLast(digits);
      PlaceValueIsDecimal(digits[..|digits| - 1]);
    }
  }

  lemma {:induction false} SkippedSpaces(v: string, spaces: string, rest: string)
    requires v == spaces + rest && (forall i :: 0 <= i < |spaces| ==> IsSpace(spaces[i]))
    requires rest != "" ==> !IsSpace(rest[0])
    ensures SkipSpace(v) == rest
  {
    if spaces != "" {
      assert v[0] == spaces[0] && v[1..] == spaces[1..] + rest;
      SkippedSpaces(v[1..], spaces[1..], rest);
    } else {
      assert v == rest;
    }
  }

  lemma {:induction false} SpacesBefore(v: string) returns (spaces: string)
    ensures v == spaces + SkipSpace(v) && (forall i :: 0 <= i < |spaces| ==> IsSpace(spaces[i]))
  {
    spaces := "";
    if v != "" && IsSpace(v[0]) {
      var more := SpacesBefore(v[1..]);
      spaces := [v[0]] + more;
      assert v == [v[0]] + v[1..];
    }
  }

  lemma SignIsSplit(sign: string, digits: string)
    requires IsNumeral(sign + digits, "", sign, digits)
    ensures var t := sign + digits;
            && t != "" && !IsSpace(t[0])
            && (sign != "" <==> t[0] == '-' || t[0] == '+') && (sign == "-" <==> t[0] == '-')
            && (if sign == "" then t == digits else t[1..] == digits)
  {
    var t := sign + digits;
    if sign == "" { assert t == digits; } else { assert t[0] == sign[0]; }
  }

  // A numeral is read as its sign and place value.
  lemma NumeralIsRead(v: string, spaces: string, sign: string, digits: string)
    requires IsNumeral(v, spaces, sign, digits)
    ensures ParseSigned(v) == Some(Signed(sign == "-", PlaceValue(digits)))
  {
    assert v == spaces + (sign + digits);
    assert sign + digits == "" + sign + digits;
    SignIsSplit(sign, digits);
    SkippedSpaces(v, spaces, sign + digits);
    DigitsAreDigits(digits);
    PlaceValueIsDecimal(digits);
  }

  lemma SignOf(t: string) returns (sign: string, digits: string)
    requires t != ""
    ensures t == sign + digits && (sign == "" || sign == "+" || sign == "-")
    ensures digits == if t[0] == '-' || t[0] == '+' then t[1..] else t
  {
    if t[0] == '-' || t[0] == '+' {
      sign, digits := [t[0]], t[1..];
    } else {
      sign, digits := "", t;
    }
  }

  // Whatever is read as a number is a numeral.
  lemma ReadIsNumeral(v: string) returns (spaces: string, sign: string, digits: string)
    requires ParseSigned(v).Some?
    ensures IsNumeral(v, spaces, sign, digits)
  {
    spaces := SpacesBefore(v);
    var t := SkipSpace(v);
    sign, digits := SignOf(t);
    assert v == spaces + sign + digits by { assert spaces + (sign + digits) == spaces + sign + digits; }
    DigitsAreDigits(digits);
  }

  predicate IsNumberKind(kind: Kind) {
    kind.KInt? || kind.KU32? || kind.KU64? || kind.KConfidence?
  }

  // The number that an unsigned option gets from a sign and a magnitude.
  function Unsigned(negative: bool, magnitude: nat): nat
    requires magnitude <= UINT64_MAX
  {
    if negative && magnitude > 0 then 0x1_0000_0000_0000_0000 - magnitude else magnitude
  }

  // Whether an option of this kind takes the numeral, whose first character is `first`.
  predicate Takes(kind: Kind, first: char, negative: bool, magnitude: nat)
    requires IsNumberKind(kind)
  {
    if kind.KInt? then if negative then magnitude <= 0x8000_0000 else magnitude <= INT32_MAX
    else
      && first != '-' && magnitude <= UINT64_MAX
      && var n := Unsigned(negative, magnitude);
         match kind
         case KU32(allowZero) => n <= UINT32_MAX && (allowZero || n != 0)
         case KU64 => n != 0
         case _ => n <= 100
  }

  function Meant(kind: Kind, negative: bool, magnitude: nat): int
    requires kind.KInt? || magnitude <= UINT64_MAX
  {
    if kind.KInt? then if negative then 0 - magnitude else magnitude else Unsigned(negative, magnitude)
  }

  // A number option takes exactly the numerals in its range, and gets their value.
  lemma NumberLine(options: Options, key: Key, v: string, spaces: string, sign: string, digits: string)
    requires IsNumberKind(KindOf(key)) && IsBare(v) && IsNumeral(v, spaces, sign, digits)
    ensures v != ""
    ensures var negative, magnitude := sign == "-", PlaceValue(digits);
            LoadLine(options, NameOf(key) + "=" + v) ==
            if !Takes(KindOf(key), v[0], negative, magnitude) then None
            else Some(options[key := Number(Meant(KindOf(key), negative, magnitude))])
  {
    NumeralIsRead(v, spaces, sign, digits);
    NumberIsTaken(KindOf(key), v, sign == "-", PlaceValue(digits));
    BareLine(options, key, v);
  }

  lemma NumberIsTaken(kind: Kind, v: string, negative: bool, magnitude: nat)
    requires IsNumberKind(kind) && ParseSigned(v) == Some(Signed(negative, magnitude))
    ensures v != ""
    ensures ParseValue(kind, v) ==
            if Takes(kind, v[0], negative, magnitude) then Some(Number(Meant(kind, negative, magnitude))) else None
  {
  }

  // Any other value rejects the file.
  lemma NoNumberLine(options: Options, key: Key, v: string)
    requires IsNumberKind(KindOf(key)) && IsBare(v)
    requires forall spaces, sign, digits :: !IsNumeral(v, spaces, sign, digits)
    ensures LoadLine(options, NameOf(key) + "=" + v) == None
  {
    BareLine(options, key, v);
    if ParseSigned(v).Some? { var spaces, sign, digits := ReadIsNumeral(v); }
  }

  // ---- Modes and texts -------------------------------------------------------------------------

  lemma ModeLine(options: Options, key: Key, v: string)
    requires KindOf(key) == KMode && IsBare(v)
    ensures LoadLine(options, NameOf(key) + "=" + v) ==
            if v == "disabled" then Some(options[key := Mode(Disabled)])
            else if v == "preferred" then Some(options[key := Mode(Preferred)])
            else if v == "required" then Some(options[key := Mode(Required)])
            else None
  {
    BareLine(options, key, v);
  }

  // A text is taken up to the first terminator, and never rejected.
  lemma TextLine(options: Options, key: Key, v: string) returns (text: string)
    requires KindOf(key) == KText && IsBare(v)
    ensures LoadLine(options, NameOf(key) + "=" + v) == Some(options[key := Text(text)])
    ensures '\0' !in text && |text| <= |v| && v[..|text|] == text && (|text| < |v| ==> v[|text|] == '\0')
  {
    BareLine(options, key, v);
    text := CStr(v);
    FindIsFirst(v, '\0');
  }

  // ---- Blanks, comments and lines without a setting ------------------------------------------

  predicate IsBlanks(s: string) {
    forall i :: 0 <= i < |s| ==> IsBlank(s[i])
  }

  lemma {:induction false} TrimLeftSkips(blanks: string, s: string)
    requires IsBlanks(blanks) && (s != "" ==> !IsBlank(s[0]))
    ensures TrimLeft(blanks + s) == s
  {
    if blanks == "" {
      assert blanks + s == s;
    } else {
      assert (blanks + s)[0] == blanks[0] && (blanks + s)[1..] == blanks[1..] + s;
      TrimLeftSkips(blanks[1..], s);
    }
  }

  lemma {:induction false} TrimRightSkips(s: string, blanks: string)
    requires IsBlanks(blanks) && (s != "" ==> !IsBlank(s[|s| - 1]))
    ensures TrimRight(s + blanks) == s
  {
    if blanks == "" {
      assert s + blanks == s;
    } else {
      var n := |blanks| - 1;
      assert (s + blanks)[|s + blanks| - 1] == blanks[n] && (s + blanks)[..|s + blanks| - 1] == s + blanks[..n];
      TrimRightSkips(s, blanks[..n]);
    }
  }

  lemma TrimsBlanks(before: string, s: string, after: string)
    requires IsBlanks(before) && IsBlanks(after) && NoOuterBlank(s)
    ensures Trim(before + s + after) == s
  {
    if s == "" {
      assert before + s + after == (before + after) + "";
      TrimLeftSkips(before + after, "");
    } else {
      assert before + s + after == before + (s + after);
      TrimLeftSkips(before, s + after);
      TrimRightSkips(s, after);
    }
  }

  // Nothing, or a comment sign and whatever follows it.
  predicate IsComment(s: string) {
    s == "" || s[0] == '#'
  }

  // The value of a line: blanks around it and a comment behind it do not matter.
  lemma ValueIsFound(before: string, v: string, after: string, comment: string)
    requires IsBlanks(before) && IsBlanks(after) && IsBare(v) && IsComment(comment)
    ensures WithoutComment(Trim(TrimRight(before + v + after + comment))) == v
  {
    if comment == "" {
      assert before + v + after + comment == before + v + after;
      var x := before + v;
      if v == "" {
        assert before + v + after == "" + (before + after);
        TrimRightSkips("", before + after);
      } else {
        assert before + v + after == x + after;
        TrimRightSkips(x, after);
        TrimsBlanks(before, v, "");
        assert before + v + "" == x;
      }
      FindIsFirst(v, '#');
    } else {
      var rest := comment[1..];
      assert before + v + after + comment == (before + v + after + ['#']) + rest;
      TrimRightAfter(before + v + after + ['#'], rest);
      TrimRightTwice(rest);
      CommentIsCut(before, v, after, TrimRight(rest));
    }
  }

  lemma TrimRightTwice(s: string)
    ensures TrimRight(TrimRight(s)) == TrimRight(s)
  {
    var n := TrimRightKeepsPrefix(s);
  }

  // What stands before the sign once the blanks at the front are gone.
  function BeforeSign(v: string, after: string): string {
    if v == "" then "" else v + after
  }

  lemma SignIsReached(before: string, v: string, after: string, rest: string)
    requires IsBlanks(before) && IsBlanks(after) && IsBare(v)
    ensures TrimLeft(before + v + after + ['#'] + rest) == BeforeSign(v, after) + (['#'] + rest)
  {
    var tail := ['#'] + rest;
    if v == "" {
      assert before + v + after + ['#'] + rest == (before + after) + tail;
      TrimLeftSkips(before + after, tail);
      assert "" + tail == tail;
    } else {
      assert before + v + after + ['#'] + rest == before + (v + after + tail);
      assert (v + after + tail)[0] == v[0];
      TrimLeftSkips(before, v + after + tail);
    }
  }

  lemma SignIsCut(v: string, after: string, rest: string)
    requires IsBlanks(after) && IsBare(v)
    ensures WithoutComment(BeforeSign(v, after) + ['#'] + rest) == v
  {
    var head := BeforeSign(v, after);
    NotAddedByBlanks(v, after, '#');
    FindAfter(head, '#', rest);
    assert (head + ['#'] + rest)[..|head|] == head;
    TrimsBlanks("", v, if v == "" then "" else after);
    assert head == "" + v + (if v == "" then "" else after);
  }

  lemma CommentIsCut(before: string, v: string, after: string, rest: string)
    requires IsBlanks(before) && IsBlanks(after) && IsBare(v) && TrimRight(rest) == rest
    ensures WithoutComment(Trim(before + v + after + ['#'] + rest)) == v
  {
    var head := BeforeSign(v, after);
    var line := before + v + after + ['#'] + rest;
    SignIsReached(before, v, after, rest);
    assert TrimLeft(line) == (head + ['#']) + rest;
    TrimRightAfter(head + ['#'], rest);
    assert Trim(line) == head + ['#'] + rest;
    SignIsCut(v, after, rest);
  }

  lemma NotAddedByBlanks(s: string, blanks: string, c: char)
    requires c !in s && IsBlanks(blanks) && !IsBlank(c)
    ensures c !in s + blanks
  {
    forall i | 0 <= i < |blanks| ensures blanks[i] != c {}
  }

  lemma LineIsTrimmed(b1: string, name: string, b2: string, value: string)
    requires IsBlanks(b1) && NoOuterBlank(name) && name != ""
    ensures Trim(b1 + name + b2 + "=" + value) == (name + b2) + ['='] + TrimRight(value)
  {
    var head := (name + b2) + ['='];
    assert b1 + name + b2 + "=" + value == b1 + (head + value);
    TrimLeftSkips(b1, head + value);
    TrimRightAfter(head, value);
  }

  lemma NameIsFound(name: string, b2: string, value: string)
    requires IsBlanks(b2) && NoOuterBlank(name) && '=' !in name
    ensures var t := (name + b2) + ['='] + value;
            && Find(t, '=') == Some(|name + b2|) && Trim(t[..|name + b2|]) == name
            && t[|name + b2| + 1..] == value
  {
    var head := name + b2;
    var t := head + ['='] + value;
    NotAddedByBlanks(name, b2, '=');
    FindAfter(head, '=', value);
    assert t[..|head|] == head && t[|head| + 1..] == value;
    TrimsBlanks("", name, b2);
    assert "" + name + b2 == head;
  }

  // How a line with an equals sign is taken apart.
  lemma LineIsSplit(line: string, b1: string, name: string, b2: string, value: string)
    requires line == b1 + name + b2 + "=" + value
    requires IsBlanks(b1) && IsBlanks(b2) && NoOuterBlank(name) && name != "" && '=' !in name
    ensures var t := Trim(line);
            && t != "" && t[0] == name[0]
            && Find(t, '=') == Some(|name + b2|) && Trim(t[..|name + b2|]) == name
            && t[|name + b2| + 1..] == TrimRight(value)
  {
    LineIsTrimmed(b1, name, b2, value);
    NameIsFound(name, b2, TrimRight(value));
  }

  lemma SplitIsRead(options: Options, line: string, t: string, i: nat, key: Key)
    requires t == Trim(line) && !StartsNoSetting(t) && Find(t, '=') == Some(i) && KeyOf(Trim(t[..i])) == Some(key)
    ensures LoadLine(options, line) ==
            match ParseValue(KindOf(key), WithoutComment(Trim(t[i + 1..])))
            case None => None
            case Some(v) => Some(options[key := v])
  {
  }

  lemma NamedIsRead(options: Options, name: string, key: Key, b1: string, b2: string, value: string)
    requires IsBlanks(b1) && IsBlanks(b2) && IsWord(name) && KeyOf(name) == Some(key)
    ensures LoadLine(options, b1 + name + b2 + "=" + value) ==
            match ParseValue(KindOf(key), WithoutComment(Trim(TrimRight(value))))
            case None => None
            case Some(v) => Some(options[key := v])
  {
    WordFacts(name);
    var line := b1 + name + b2 + "=" + value;
    LineIsSplit(line, b1, name, b2, value);
    WholeIsRead(options, line, name, key, |name + b2|, TrimRight(value));
  }

  lemma WholeIsRead(options: Options, line: string, name: string, key: Key, i: nat, value: string)
    requires IsWord(name) && KeyOf(name) == Some(key)
    requires var t := Trim(line);
             && t != "" && t[0] == name[0] && Find(t, '=') == Some(i) && Trim(t[..i]) == name && t[i + 1..] == value
    ensures LoadLine(options, line) ==
            match ParseValue(KindOf(key), WithoutComment(Trim(value)))
            case None => None
            case Some(v) => Some(options[key := v])
  {
    WordFacts(name);
    SplitIsRead(options, line, Trim(line), i, key);
  }

  lemma SettingIsRead(options: Options, key: Key, b1: string, b2: string, value: string)
    requires IsBlanks(b1) && IsBlanks(b2)
    ensures LoadLine(options, b1 + NameOf(key) + b2 + "=" + value) ==
            match ParseValue(KindOf(key), WithoutComment(Trim(TrimRight(value))))
            case None => None
            case Some(v) => Some(options[key := v])
  {
    NameIsWord(key);
    KeyOfName(key);
    NamedIsRead(options, NameOf(key), key, b1, b2, value);
  }

  // Blanks around the name and the value, and a comment behind it, do not matter.
  lemma SpacedLine(options: Options, key: Key, b1: string, b2: string, b3: string, v: string, b4: string,
      comment: string)
    requires IsBlanks(b1) && IsBlanks(b2) && IsBlanks(b3) && IsBlanks(b4) && IsBare(v) && IsComment(comment)
    ensures LoadLine(options, b1 + NameOf(key) + b2 + "=" + (b3 + v + b4 + comment)) ==
            LoadLine(options, NameOf(key) + "=" + v)
  {
    SettingIsRead(options, key, b1, b2, b3 + v + b4 + comment);
    ValueIsFound(b3, v, b4, comment);
    BareLine(options, key, v);
  }

  lemma {:induction false} FoundKeyHasName(keys: seq<Key>, name: string)
    ensures FindKey(keys, name).Some? ==> NameOf(FindKey(keys, name).value) == name
  {
    if keys != [] { FoundKeyHasName(keys[1..], name); }
  }

  // A name that is no option's is ignored with its value.
  lemma UnknownNameIsIgnored(options: Options, b1: string, name: string, b2: string, value: string)
    requires IsBlanks(b1) && IsBlanks(b2) && NoOuterBlank(name) && name != "" && '=' !in name
    requires forall key: Key :: NameOf(key) != name
    ensures LoadLine(options, b1 + name + b2 + "=" + value) == Some(options)
  {
    LineIsSplit(b1 + name + b2 + "=" + value, b1, name, b2, value);
    FoundKeyHasName(AllKeys(), name);
  }

  // So is a line of blanks, a comment, a section header, and a line without an equals
  // sign.
  lemma LineWithoutSettingIsIgnored(options: Options, blanks: string, rest: string)
    requires IsBlanks(blanks) && (rest != "" ==> !IsBlank(rest[0]))
    requires rest == "" || rest[0] == '#' || rest[0] == ';' || rest[0] == '[' || '=' !in rest
    ensures LoadLine(options, blanks + rest) == Some(options)
  {
    TrimLeftSkips(blanks, rest);
    var n := TrimRightKeepsPrefix(rest);
    if rest != "" {
      TrimRightAfter(rest[..1], rest[1..]);
      assert rest[..1] + rest[1..] == rest;
    }
    FindIsFirst(TrimRight(rest), '=');
  }
}
