/** packages/utils/src/customer-address.ts: cleaning and checking a delivery address. */
module CustomerAddress {
  import opened JsText

  // ----- text -----

  /** `replace(/\s+/g, ' ')`. */
  function Collapse(s: string): string
    decreases |s|
  {
    if s == "" then ""
    else if IsSpace(s[0]) then
      if |s| > 1 && IsSpace(s[1]) then Collapse(s[1..]) else " " + Collapse(s[1..])
    else [s[0]] + Collapse(s[1..])
  }

  function TextOf(value: Option<string>): string {
    if value.Some? then value.value else ""
  }

  function CleanText(value: Option<string>): string { Collapse(Trim(TextOf(value))) }

  /** No white space at either end, and inside only single spaces. */
  ghost predicate IsClean(s: string) {
    && (s != "" ==> !IsSpace(s[0]) && !IsSpace(s[|s| - 1]))
    && SingleSpaced(s)
  }

  ghost predicate SingleSpaced(s: string) {
    && (forall i :: 0 <= i < |s| && IsSpace(s[i]) ==> s[i] == ' ')
    && (forall i :: 0 <= i < |s| - 1 ==> !(IsSpace(s[i]) && IsSpace(s[i + 1])))
  }

  lemma SpaceIsSpace()
    ensures IsSpace(' ')
  {}

  lemma {:induction false} CollapseSingleSpaced(s: string)
    ensures SingleSpaced(Collapse(s))
    ensures s != "" ==> Collapse(s) != "" && (IsSpace(Collapse(s)[0]) <==> IsSpace(s[0]))
    ensures s != "" && !IsSpace(s[|s| - 1]) ==> !IsSpace(Collapse(s)[|Collapse(s)| - 1])
    decreases |s|
  {
    SpaceIsSpace();
    hide IsSpace;
    if s != "" {
      var rest := s[1..];
      CollapseSingleSpaced(rest);
      if |s| > 1 {
        assert rest[0] == s[1] && rest[|rest| - 1] == s[|s| - 1];
      } else {
        assert rest == "";
      }
    }
  }

  lemma {:induction false} CollapseNothing(s: string)
    requires SingleSpaced(s)
    ensures Collapse(s) == s
    decreases |s|
  {
    hide IsSpace;
    if s != "" {
      var rest := s[1..];
      assert forall i | 0 <= i < |rest| :: rest[i] == s[i + 1];
      CollapseNothing(rest);
      assert s == [s[0]] + rest;
    }
  }

  lemma {:induction false} TrimStartTrims(s: string)
    ensures var t := TrimStart(s); (t != "" ==> !IsSpace(t[0])) && (t != "" ==> t[|t| - 1] == s[|s| - 1])
    decreases |s|
  {
    hide IsSpace;
    if s != "" && IsSpace(s[0]) {
      TrimStartTrims(s[1..]);
    }
  }

  lemma {:induction false} TrimEndTrims(s: string)
    ensures var t := TrimEnd(s); (t != "" ==> !IsSpace(t[|t| - 1])) && (t != "" ==> t[0] == s[0])
    decreases |s|
  {
    hide IsSpace;
    if s != "" && IsSpace(s[|s| - 1]) {
      TrimEndTrims(s[..|s| - 1]);
    }
  }

  lemma CleanTextIsClean(value: Option<string>)
    ensures IsClean(CleanText(value))
  {
    hide IsSpace;
    var s := TextOf(value);
    var trimmed := Trim(s);
    TrimStartTrims(s);
    TrimEndTrims(TrimStart(s));
    CollapseSingleSpaced(trimmed);
  }

  /** Cleaning leaves exactly the clean texts alone, and always produces one. */
  lemma CleanTextFixed(s: string)
    ensures CleanText(Some(s)) == s <==> IsClean(s)
    ensures CleanText(Some(CleanText(Some(s)))) == CleanText(Some(s))
  {
    hide IsSpace;
    CleanTextIsClean(Some(s));
    CleanStays(CleanText(Some(s)));
    if IsClean(s) {
      CleanStays(s);
    }
  }

  lemma CleanStays(s: string)
    requires IsClean(s)
    ensures CleanText(Some(s)) == s
  {
    hide IsSpace;
    CollapseNothing(s);
  }

  // ----- cleaning word by word -----

  /** The words of a text: its longest runs without white space. */
  ghost function Words(s: string): (words: seq<string>)
    ensures s != "" && !IsSpace(s[0]) ==> words != []
    decreases |s|
  {
    if s == "" then []
    else
      var rest := Words(s[1..]);
      if IsSpace(s[0]) then rest
      else if |s| > 1 && !IsSpace(s[1]) then [[s[0]] + rest[0]] + rest[1..]
      else [[s[0]]] + rest
  }

  ghost function Spaced(words: seq<string>): string {
    if words == [] then "" else if |words| == 1 then words[0] else words[0] + " " + Spaced(words[1..])
  }

  lemma {:induction false} WordsFromStart(s: string)
    ensures Words(TrimStart(s)) == Words(s)
    decreases |s|
  {
    hide IsSpace;
    if s != "" && IsSpace(s[0]) {
      WordsFromStart(s[1..]);
    }
  }

  lemma {:induction false} SpaceEndsNothing(s: string, c: char)
    requires IsSpace(c)
    ensures Words(s + [c]) == Words(s)
    decreases |s|
  {
    hide IsSpace;
    var t := s + [c];
    if s == "" {
      assert t[0] == c && t[1..] == "";
    } else {
      assert t[0] == s[0] && t[1..] == s[1..] + [c];
      assert |s| > 1 ==> t[1] == s[1];
      SpaceEndsNothing(s[1..], c);
    }
  }

  lemma {:induction false} WordsToEnd(s: string)
    ensures Words(TrimEnd(s)) == Words(s)
    decreases |s|
  {
    hide IsSpace, Words;
    if s != "" && IsSpace(s[|s| - 1]) {
      var front, last := s[..|s| - 1], s[|s| - 1];
      assert s == front + [last];
      SpaceEndsNothing(front, last);
      WordsToEnd(front);
    }
  }

  lemma LongerWord(c: char, words: seq<string>)
    requires words != []
    ensures Spaced([[c] + words[0]] + words[1..]) == [c] + Spaced(words)
  {
    var longer := [[c] + words[0]] + words[1..];
    assert longer[1..] == words[1..];
    if |words| > 1 {
      assert [c] + (words[0] + " " + Spaced(words[1..])) == ([c] + words[0]) + " " + Spaced(words[1..]);
    }
  }

  lemma ShortWord(c: char, words: seq<string>)
    requires words != []
    ensures Spaced([[c]] + words) == [c] + (" " + Spaced(words))
  {
    assert ([[c]] + words)[1..] == words;
  }

  lemma {:induction false} CollapseSpaces(s: string)
    requires s != "" && !IsSpace(s[|s| - 1])
    ensures Words(s) != []
    ensures Collapse(s) == if IsSpace(s[0]) then " " + Spaced(Words(s)) else Spaced(Words(s))
    decreases |s|
  {
    hide IsSpace, Spaced;
    if |s| == 1 {
      assert s[1..] == "" && s == [s[0]];
      assert Words(s) == [s] && Collapse(s) == s + "";
      OneWord(s);
    } else {
      var rest := s[1..];
      assert rest[0] == s[1] && rest[|rest| - 1] == s[|s| - 1];
      CollapseSpaces(rest);
      if !IsSpace(s[0]) {
        if IsSpace(s[1]) {
          ShortWord(s[0], Words(rest));
        } else {
          LongerWord(s[0], Words(rest));
        }
      }
    }
  }

  lemma OneWord(word: string)
    ensures Spaced([word]) == word
  {}

  /** A cleaned text is its words with single spaces between them. */
  lemma CleanTextWords(value: Option<string>)
    ensures CleanText(value) == Spaced(Words(TextOf(value)))
  {
    hide IsSpace, Words, Spaced;
    var s := TextOf(value);
    var trimmed := Trim(s);
    WordsFromStart(s);
    WordsToEnd(TrimStart(s));
    TrimStartTrims(s);
    TrimEndTrims(TrimStart(s));
    if trimmed == "" {
      NoWords();
    } else {
      CollapseSpaces(trimmed);
    }
  }

  lemma NoWords()
    ensures Spaced(Words("")) == ""
  {}

  // ----- phone numbers and pincodes -----

  predicate IsDigit(c: char) { '0' <= c <= '9' }

  predicate AllDigits(s: string) { forall i :: 0 <= i < |s| ==> IsDigit(s[i]) }

  /** Stripped from phone numbers. */
  predicate IsPhoneFiller(c: char) { IsSpace(c) || c == '(' || c == ')' || c == '-' }

  function StripFiller(s: string): string
    decreases |s|
  {
    if s == "" then ""
    else if IsPhoneFiller(s[0]) then StripFiller(s[1..])
    else [s[0]] + StripFiller(s[1..])
  }

  function WithCountryCode(raw: string): string {
    if |raw| == 13 && raw[..3] == "+91" && AllDigits(raw[3..]) then raw
    else if |raw| == 12 && raw[..2] == "91" && AllDigits(raw[2..]) then "+" + raw
    else if |raw| == 10 && AllDigits(raw) then "+91" + raw
    else raw
  }

  function NormalizeIndianPhone(value: Option<string>): string {
    WithCountryCode(StripFiller(CleanText(value)))
  }

  ghost predicate NoFiller(s: string) { forall i :: 0 <= i < |s| ==> !IsPhoneFiller(s[i]) }

  lemma {:induction false} StripFillerResult(s: string)
    ensures NoFiller(StripFiller(s)) && (NoFiller(s) ==> StripFiller(s) == s)
    decreases |s|
  {
    hide IsPhoneFiller;
    if s != "" {
      var rest := s[1..];
      StripFillerResult(rest);
      assert forall i | 0 <= i < |rest| :: rest[i] == s[i + 1];
      assert s == [s[0]] + rest;
    }
  }

  lemma CountryCodeResult(raw: string)
    requires NoFiller(raw)
    ensures NoFiller(WithCountryCode(raw)) && WithCountryCode(WithCountryCode(raw)) == WithCountryCode(raw)
  {}

  lemma NoFillerIsClean(s: string)
    requires NoFiller(s)
    ensures IsClean(s)
  {}

  /** No filler, and neither ten digits alone nor twelve that start with 91. */
  ghost predicate IsNormalPhone(s: string) {
    NoFiller(s) && !(AllDigits(s) && (|s| == 10 || (|s| == 12 && s[0] == '9' && s[1] == '1')))
  }

  lemma PhoneIsNormal(value: Option<string>)
    ensures IsNormalPhone(NormalizeIndianPhone(value))
  {
    StripFillerResult(CleanText(value));
    CountryCodeResult(StripFiller(CleanText(value)));
  }

  lemma NormalPhoneStays(s: string)
    requires IsNormalPhone(s)
    ensures NormalizeIndianPhone(Some(s)) == s
  {
    NoFillerIsClean(s);
    CleanStays(s);
    StripFillerResult(s);
  }

  /** Normalizing leaves exactly the normal numbers alone, and always produces one. */
  lemma PhoneFixed(s: string)
    ensures NormalizeIndianPhone(Some(s)) == s <==> IsNormalPhone(s)
    ensures NormalizeIndianPhone(Some(NormalizeIndianPhone(Some(s)))) == NormalizeIndianPhone(Some(s))
  {
    hide NormalizeIndianPhone, IsNormalPhone;
    PhoneIsNormal(Some(s));
    NormalPhoneStays(NormalizeIndianPhone(Some(s)));
    if IsNormalPhone(s) {
      NormalPhoneStays(s);
    }
  }

  lemma {:induction false} StripAppend(x: string, y: string)
    ensures StripFiller(x + y) == StripFiller(x) + StripFiller(y)
    decreases |x|
  {
    hide IsPhoneFiller;
    if x == "" {
      assert x + y == y;
    } else {
      assert (x + y)[0] == x[0] && (x + y)[1..] == x[1..] + y;
      StripAppend(x[1..], y);
    }
  }

  lemma {:induction false} StripBlank(s: string)
    requires Blank(s)
    ensures StripFiller(s) == ""
    decreases |s|
  {
    if s != "" {
      StripBlank(s[1..]);
    }
  }

  lemma {:induction false} StripCollapsed(s: string)
    ensures StripFiller(Collapse(s)) == StripFiller(s)
    decreases |s|
  {
    SpaceIsFiller();
    hide IsPhoneFiller, IsSpace;
    if s != "" {
      StripCollapsed(s[1..]);
      StripAppend(" ", Collapse(s[1..]));
      StripAppend([s[0]], Collapse(s[1..]));
      StripAppend([s[0]], s[1..]);
      assert s == [s[0]] + s[1..];
      if IsSpace(s[0]) {
        StripOne(s[0]);
        StripOne(' ');
      }
    }
  }

  lemma SpaceIsFiller()
    ensures forall c :: IsSpace(c) ==> IsPhoneFiller(c)
    ensures IsSpace(' ')
  {}

  lemma StripOne(c: char)
    ensures StripFiller([c]) == if IsPhoneFiller(c) then "" else [c]
  {}

  lemma StripCleaned(value: Option<string>)
    ensures StripFiller(CleanText(value)) == StripFiller(TextOf(value))
  {
    hide IsSpace;
    var s := TextOf(value);
    var i := TrimStartExact(s);
    var t := s[i..];
    var j := TrimEndExact(t);
    StripCollapsed(t[..j]);
    assert s == s[..i] + t && t == t[..j] + t[j..];
    StripAppend(s[..i], t);
    StripAppend(t[..j], t[j..]);
    StripBlank(s[..i]);
    StripBlank(t[j..]);
  }

  /** White space, brackets and hyphens may stand anywhere in a number. */
  lemma FillerIgnored(x: string, c: char, y: string)
    requires IsSpace(c) || c == '(' || c == ')' || c == '-'
    ensures NormalizeIndianPhone(Some(x + [c] + y)) == NormalizeIndianPhone(Some(x + y))
  {
    StripCleaned(Some(x + [c] + y));
    StripCleaned(Some(x + y));
    StripAppend(x + [c], y);
    StripAppend(x, [c]);
    StripAppend(x, y);
    StripOne(c);
    hide StripFiller, CleanText;
    assert StripFiller(x) + "" == StripFiller(x);
  }

  /** A number without such characters: ten digits get +91 in front, twelve digits that start
      with 91 a plus, and all else stays. */
  lemma PhoneOfBare(s: string)
    requires forall i :: 0 <= i < |s| ==> !(IsSpace(s[i]) || s[i] == '(' || s[i] == ')' || s[i] == '-')
    ensures NormalizeIndianPhone(Some(s)) ==
            if AllDigits(s) && |s| == 10 then "+91" + s
            else if AllDigits(s) && |s| == 12 && s[0] == '9' && s[1] == '1' then "+" + s
            else s
  {
    StripCleaned(Some(s));
    StripFillerResult(s);
    hide StripFiller, CleanText, IsSpace;
    if |s| == 12 {
      assert s[..2] == "91" <==> s[0] == '9' && s[1] == '1';
    }
  }

  function OnlyDigits(s: string): string
    decreases |s|
  {
    if s == "" then "" else (if IsDigit(s[0]) then [s[0]] else "") + OnlyDigits(s[1..])
  }

  function CleanIndianPincode(value: Option<string>): string {
    var digits := OnlyDigits(TextOf(value));
    if |digits| > 6 then digits[..6] else digits
  }

  lemma {:induction false} OnlyDigitsResult(s: string)
    ensures AllDigits(OnlyDigits(s)) && (AllDigits(s) ==> OnlyDigits(s) == s)
    decreases |s|
  {
    if s != "" {
      var rest := s[1..];
      OnlyDigitsResult(rest);
      assert forall i | 0 <= i < |rest| :: rest[i] == s[i + 1];
      assert s == [s[0]] + rest;
    }
  }

  lemma PincodeIsDigits(value: Option<string>)
    ensures AllDigits(CleanIndianPincode(value)) && |CleanIndianPincode(value)| <= 6
  {
    OnlyDigitsResult(TextOf(value));
  }

  /** Cleaning leaves exactly the strings of at most six digits alone, and always produces one. */
  lemma PincodeFixed(s: string)
    ensures CleanIndianPincode(Some(s)) == s <==> AllDigits(s) && |s| <= 6
    ensures CleanIndianPincode(Some(CleanIndianPincode(Some(s)))) == CleanIndianPincode(Some(s))
  {
    PincodeIsDigits(Some(s));
    OnlyDigitsResult(s);
    OnlyDigitsResult(CleanIndianPincode(Some(s)));
  }

  lemma {:induction false} OnlyDigitsAppend(x: string, y: string)
    ensures OnlyDigits(x + y) == OnlyDigits(x) + OnlyDigits(y)
    decreases |x|
  {
    hide IsDigit;
    if x == "" {
      assert x + y == y;
    } else {
      assert (x + y)[0] == x[0] && (x + y)[1..] == x[1..] + y;
      OnlyDigitsAppend(x[1..], y);
      var first := if IsDigit(x[0]) then [x[0]] else "";
      assert first + (OnlyDigits(x[1..]) + OnlyDigits(y)) == first + OnlyDigits(x[1..]) + OnlyDigits(y);
    }
  }

  lemma NoDigit(c: char)
    requires !IsDigit(c)
    ensures OnlyDigits([c]) == ""
  {}

  /** Whatever is no digit may stand anywhere in a pincode, and digits beyond six are cut off. */
  lemma PincodeDigits(x: string, c: char, y: string)
    requires !('0' <= c <= '9')
    ensures CleanIndianPincode(Some(x + [c] + y)) == CleanIndianPincode(Some(x + y))
    ensures AllDigits(x) ==> CleanIndianPincode(Some(x)) == if |x| > 6 then x[..6] else x
  {
    hide OnlyDigits;
    OnlyDigitsAppend(x + [c], y);
    OnlyDigitsAppend(x, [c]);
    OnlyDigitsAppend(x, y);
    OnlyDigitsResult(x);
    NoDigit(c);
    assert OnlyDigits(x) + "" == OnlyDigits(x);
  }

  // ----- the payload -----

  /** What an address form holds. A coordinate is None when it is missing, blank or no
      finite number. */
  datatype Input = Input(
    addressLabel: Option<string>, recipientName: Option<string>, phone: Option<string>, alternatePhone: Option<string>,
    line1: Option<string>, line2: Option<string>, landmark: Option<string>, city: Option<string>,
    state: Option<string>, pincode: Option<string>, country: Option<string>,
    latitude: Option<real>, longitude: Option<real>, instructions: Option<string>, isDefault: bool)

  datatype Options = Options(fallbackName: Option<string>, fallbackPhone: Option<string>, isDefault: Option<bool>)

  datatype Payload = Payload(
    addressLabel: string, recipientName: string, phone: string, alternatePhone: Option<string>,
    line1: string, line2: Option<string>, landmark: Option<string>, city: string,
    state: string, pincode: string, country: string,
    latitude: real, longitude: real, instructions: Option<string>, isDefault: bool)

  datatype Error =
    | NameTooShort | NameTooLong | LabelTooLong | BadPhone | BadAlternatePhone | BadLine1
    | BadCity | BadState | BadPincode | BadCountry | NotPinned

  datatype Result = Built(payload: Payload) | Rejected(error: Error)

  /** An optional sign, a nonzero digit and 7 to 14 more digits. */
  predicate IsPhone(s: string) {
    var digits := if s != "" && s[0] == '+' then s[1..] else s;
    8 <= |digits| <= 15 && AllDigits(digits) && digits[0] != '0'
  }

  function NonEmpty(s: string): Option<string> { if s == "" then None else Some(s) }

  function OrElse(s: string, other: string): string { if s == "" then other else s }

  /** `upper` stands for toUpperCase. */
  function BuildPayload(input: Input, options: Options, upper: string -> string): Result {
    var recipientName := OrElse(CleanText(input.recipientName), CleanText(options.fallbackName));
    var phone := NormalizeIndianPhone(if TextOf(input.phone) != "" then input.phone else options.fallbackPhone);
    var alternatePhone := NormalizeIndianPhone(input.alternatePhone);
    var addressLabel := OrElse(CleanText(input.addressLabel), "Home");
    var line1 := CleanText(input.line1);
    var line2 := CleanText(input.line2);
    var landmark := CleanText(input.landmark);
    var city := CleanText(input.city);
    var state := CleanText(input.state);
    var pincode := CleanIndianPincode(input.pincode);
    var country := upper(CleanText(Some(OrElse(TextOf(input.country), "IN"))));
    var instructions := CleanText(input.instructions);
    if |recipientName| < 2 then Rejected(NameTooShort)
    else if |recipientName| > 80 then Rejected(NameTooLong)
    else if |addressLabel| > 32 then Rejected(LabelTooLong)
    else if !IsPhone(phone) then Rejected(BadPhone)
    else if alternatePhone != "" && !IsPhone(alternatePhone) then Rejected(BadAlternatePhone)
    else if |line1| < 3 then Rejected(BadLine1)
    else if |city| < 2 then Rejected(BadCity)
    else if |state| < 2 then Rejected(BadState)
    else if |pincode| != 6 then Rejected(BadPincode)
    else if |country| != 2 then Rejected(BadCountry)
    else if input.latitude.None? || !(-90.0 <= input.latitude.value <= 90.0) then Rejected(NotPinned)
    else if input.longitude.None? || !(-180.0 <= input.longitude.value <= 180.0) then Rejected(NotPinned)
    else Built(Payload(
      addressLabel, recipientName, phone, NonEmpty(alternatePhone), line1, NonEmpty(line2), NonEmpty(landmark), city,
      state, pincode, country, input.latitude.value, input.longitude.value, NonEmpty(instructions),
      if options.isDefault.Some? then options.isDefault.value else input.isDefault))
  }

  // ----- which payload, and which error -----

  ghost function Cleaned(value: Option<string>): string { Spaced(Words(TextOf(value))) }

  ghost function NameUsed(input: Input, options: Options): string {
    if Cleaned(input.recipientName) != "" then Cleaned(input.recipientName) else Cleaned(options.fallbackName)
  }

  /** A missing and an empty phone are the same. */
  ghost function PhoneUsed(input: Input, options: Options): string {
    NormalizeIndianPhone(
      if input.phone.Some? && input.phone.value != "" then input.phone else options.fallbackPhone)
  }

  ghost function LabelUsed(input: Input): string {
    if Cleaned(input.addressLabel) != "" then Cleaned(input.addressLabel) else "Home"
  }

  ghost function CountryUsed(input: Input, upper: string -> string): string {
    upper(Cleaned(if input.country.Some? && input.country.value != "" then input.country else Some("IN")))
  }

  /** Eight to fifteen digits that do not start with a zero, with or without a plus. */
  ghost predicate Dialable(s: string) {
    || (8 <= |s| <= 15 && AllDigits(s) && s[0] != '0')
    || (9 <= |s| <= 16 && s[0] == '+' && AllDigits(s[1..]) && s[1] != '0')
  }

  /** The input deserves this error. */
  ghost predicate Fails(e: Error, input: Input, options: Options, upper: string -> string) {
    match e
    case NameTooShort => |NameUsed(input, options)| < 2
    case NameTooLong => |NameUsed(input, options)| > 80
    case LabelTooLong => |LabelUsed(input)| > 32
    case BadPhone => !Dialable(PhoneUsed(input, options))
    case BadAlternatePhone =>
      NormalizeIndianPhone(input.alternatePhone) != "" && !Dialable(NormalizeIndianPhone(input.alternatePhone))
    case BadLine1 => |Cleaned(input.line1)| < 3
    case BadCity => |Cleaned(input.city)| < 2
    case BadState => |Cleaned(input.state)| < 2
    case BadPincode => |CleanIndianPincode(input.pincode)| < 6
    case BadCountry => |CountryUsed(input, upper)| != 2
    case NotPinned =>
      || input.latitude.None? || input.latitude.value < -90.0 || input.latitude.value > 90.0
      || input.longitude.None? || input.longitude.value < -180.0 || input.longitude.value > 180.0
  }

  /** The order of the checks. */
  ghost function Rank(e: Error): nat {
    match e
    case NameTooShort => 0
    case NameTooLong => 1
    case LabelTooLong => 2
    case BadPhone => 3
    case BadAlternatePhone => 4
    case BadLine1 => 5
    case BadCity => 6
    case BadState => 7
    case BadPincode => 8
    case BadCountry => 9
    case NotPinned => 10
  }

  lemma DialableIsPhone(s: string)
    ensures Dialable(s) <==> IsPhone(s)
  {
    if s != "" && s[0] == '+' {
      assert !IsDigit(s[0]);
    }
  }

  /** A payload is built exactly if the input deserves no error, and of those it deserves the
      first is reported. */
  lemma FirstFailure(input: Input, options: Options, upper: string -> string)
    ensures var r := BuildPayload(input, options, upper);
            && (r.Built? <==> forall e :: !Fails(e, input, options, upper))
            && (forall e :: r == Rejected(e) <==>
                  && Fails(e, input, options, upper)
                  && forall f :: Rank(f) < Rank(e) ==> !Fails(f, input, options, upper))
  {
    FieldsUsed(input, options, upper);
    hide CleanText, NormalizeIndianPhone, IsPhone, Dialable, CleanIndianPincode, AllDigits;
    hide NameUsed, PhoneUsed, LabelUsed, CountryUsed, Cleaned;
    var r := BuildPayload(input, options, upper);
    assert forall e :: r.Built? ==> !Fails(e, input, options, upper);
    assert r.Rejected? ==> Fails(r.error, input, options, upper);
    assert forall f :: r.Rejected? && Rank(f) < Rank(r.error) ==> !Fails(f, input, options, upper);
  }

  lemma FieldsUsed(input: Input, options: Options, upper: string -> string)
    ensures OrElse(CleanText(input.recipientName), CleanText(options.fallbackName)) == NameUsed(input, options)
    ensures NormalizeIndianPhone(if TextOf(input.phone) != "" then input.phone else options.fallbackPhone)
            == PhoneUsed(input, options)
    ensures OrElse(CleanText(input.addressLabel), "Home") == LabelUsed(input)
    ensures upper(CleanText(Some(OrElse(TextOf(input.country), "IN")))) == CountryUsed(input, upper)
    ensures CleanText(input.line1) == Cleaned(input.line1) && CleanText(input.city) == Cleaned(input.city)
    ensures CleanText(input.state) == Cleaned(input.state) && CleanText(input.line2) == Cleaned(input.line2)
    ensures CleanText(input.landmark) == Cleaned(input.landmark)
    ensures CleanText(input.instructions) == Cleaned(input.instructions)
    ensures forall s :: Dialable(s) <==> IsPhone(s)
    ensures |CleanIndianPincode(input.pincode)| <= 6
  {
    hide CleanText, NormalizeIndianPhone, IsPhone, Dialable, Words, Spaced;
    forall value: Option<string>
      ensures CleanText(value) == Spaced(Words(TextOf(value)))
    {
      CleanTextWords(value);
    }
    forall s
      ensures Dialable(s) <==> IsPhone(s)
    {
      DialableIsPhone(s);
    }
  }

  /** What of the input comes to stand in which field. */
  lemma FieldsBuilt(input: Input, options: Options, upper: string -> string)
    requires BuildPayload(input, options, upper).Built?
    ensures var p := BuildPayload(input, options, upper).payload;
            && p.recipientName == NameUsed(input, options) && p.phone == PhoneUsed(input, options)
            && p.addressLabel == LabelUsed(input) && p.country == CountryUsed(input, upper)
            && (var other := NormalizeIndianPhone(input.alternatePhone);
                if other == "" then p.alternatePhone == None else p.alternatePhone == Some(other))
            && p.line1 == Cleaned(input.line1) && p.city == Cleaned(input.city) && p.state == Cleaned(input.state)
            && OptionallyOf(p.line2, input.line2) && OptionallyOf(p.landmark, input.landmark)
            && OptionallyOf(p.instructions, input.instructions)
            && p.pincode == CleanIndianPincode(input.pincode)
            && input.latitude == Some(p.latitude) && input.longitude == Some(p.longitude)
            && (p.isDefault <==> options.isDefault == Some(true) || (options.isDefault == None && input.isDefault))
  {
    FieldsUsed(input, options, upper);
    hide CleanText, NormalizeIndianPhone, IsPhone, Dialable, CleanIndianPincode, AllDigits;
    hide NameUsed, PhoneUsed, LabelUsed, CountryUsed, Cleaned;
  }

  /** A field that is left out if nothing is in it. */
  ghost predicate OptionallyOf(field: Option<string>, value: Option<string>) {
    if Cleaned(value) == "" then field == None else field == Some(Cleaned(value))
  }

  /** A payload put back into the form. */
  function AsInput(p: Payload): Input {
    Input(Some(p.addressLabel), Some(p.recipientName), Some(p.phone), p.alternatePhone, Some(p.line1), p.line2, p.landmark,
          Some(p.city), Some(p.state), Some(p.pincode), Some(p.country), Some(p.latitude), Some(p.longitude),
          p.instructions, p.isDefault)
  }

  /** What is taken for granted of toUpperCase: a second time changes nothing, and a clean
      text stays one. */
  ghost predicate UpperCases(upper: string -> string) {
    forall s :: upper(upper(s)) == upper(s) && (IsClean(s) ==> IsClean(upper(s)))
  }

  lemma HomeIsClean()
    ensures IsClean("Home")
  {}

  /** The checks a payload has passed, and the shape of its fields. */
  ghost predicate Canonical(p: Payload) {
    && IsClean(p.recipientName) && 2 <= |p.recipientName| <= 80
    && IsClean(p.addressLabel) && 1 <= |p.addressLabel| <= 32
    && IsNormalPhone(p.phone) && IsPhone(p.phone)
    && (p.alternatePhone.Some? ==> IsNormalPhone(p.alternatePhone.value) && IsPhone(p.alternatePhone.value))
    && IsClean(p.line1) && |p.line1| >= 3
    && (p.line2.Some? ==> IsClean(p.line2.value) && p.line2.value != "")
    && (p.landmark.Some? ==> IsClean(p.landmark.value) && p.landmark.value != "")
    && (p.instructions.Some? ==> IsClean(p.instructions.value) && p.instructions.value != "")
    && IsClean(p.city) && |p.city| >= 2
    && IsClean(p.state) && |p.state| >= 2
    && AllDigits(p.pincode) && |p.pincode| == 6
    && IsClean(p.country) && |p.country| == 2
    && -90.0 <= p.latitude <= 90.0 && -180.0 <= p.longitude <= 180.0
  }

  lemma BuiltIsCanonical(input: Input, options: Options, upper: string -> string)
    requires UpperCases(upper) && BuildPayload(input, options, upper).Built?
    ensures var p := BuildPayload(input, options, upper).payload;
            Canonical(p) && upper(p.country) == p.country
  {
    hide CleanText, NormalizeIndianPhone, IsClean, IsPhone, CleanIndianPincode, IsNormalPhone;
    CleanTextIsClean(input.recipientName);
    CleanTextIsClean(options.fallbackName);
    CleanTextIsClean(input.addressLabel);
    HomeIsClean();
    PhoneIsNormal(if TextOf(input.phone) != "" then input.phone else options.fallbackPhone);
    PhoneIsNormal(input.alternatePhone);
    CleanTextIsClean(input.line1);
    CleanTextIsClean(input.line2);
    CleanTextIsClean(input.landmark);
    CleanTextIsClean(input.instructions);
    CleanTextIsClean(input.city);
    CleanTextIsClean(input.state);
    PincodeIsDigits(input.pincode);
    CleanTextIsClean(Some(OrElse(TextOf(input.country), "IN")));
  }

  lemma OptionalStays(value: Option<string>)
    requires value.Some? ==> IsClean(value.value) && value.value != ""
    ensures NonEmpty(CleanText(value)) == value
  {
    hide IsSpace;
    if value.Some? {
      CleanStays(value.value);
    }
  }

  lemma OptionalPhoneStays(value: Option<string>)
    requires value.Some? ==> IsNormalPhone(value.value) && value.value != ""
    ensures NonEmpty(NormalizeIndianPhone(value)) == value
  {
    hide IsSpace;
    if value.Some? {
      NormalPhoneStays(value.value);
    } else {
      assert NoFiller("") && WithCountryCode("") == "";
      NormalPhoneStays("");
      assert NormalizeIndianPhone(None) == NormalizeIndianPhone(Some(""));
    }
  }

  lemma PhoneNotEmpty(s: string)
    requires IsPhone(s)
    ensures s != ""
  {}

  lemma CanonicalStays(p: Payload, options: Options, upper: string -> string)
    requires Canonical(p) && upper(p.country) == p.country
    requires options.isDefault.Some? ==> options.isDefault.value == p.isDefault
    ensures BuildPayload(AsInput(p), options, upper) == Built(p)
  {
    hide CleanText, NormalizeIndianPhone, IsClean, IsPhone, CleanIndianPincode, IsNormalPhone, AllDigits;
    CleanStays(p.recipientName);
    PhoneNotEmpty(p.phone);
    if p.alternatePhone.Some? {
      PhoneNotEmpty(p.alternatePhone.value);
    }
    CleanStays(p.addressLabel);
    NormalPhoneStays(p.phone);
    OptionalPhoneStays(p.alternatePhone);
    CleanStays(p.line1);
    OptionalStays(p.line2);
    OptionalStays(p.landmark);
    OptionalStays(p.instructions);
    CleanStays(p.city);
    CleanStays(p.state);
    PincodeFixed(p.pincode);
    CleanStays(p.country);
  }

  /** Building a payload is a canonicalisation: fed back into the form, with the same
      options or with none, it is built again unchanged. */
  lemma RebuildUnchanged(input: Input, options: Options, upper: string -> string)
    requires UpperCases(upper) && BuildPayload(input, options, upper).Built?
    ensures var p := BuildPayload(input, options, upper).payload;
            && BuildPayload(AsInput(p), options, upper) == Built(p)
            && BuildPayload(AsInput(p), Options(None, None, None), upper) == Built(p)
  {
    hide Canonical;
    BuiltIsCanonical(input, options, upper);
    var p := BuildPayload(input, options, upper).payload;
    CanonicalStays(p, options, upper);
    CanonicalStays(p, Options(None, None, None), upper);
  }

  /** The payloads that occur are exactly the canonical ones. */
  lemma CanonicalExactly(p: Payload, upper: string -> string)
    requires UpperCases(upper)
    ensures (exists input, options :: BuildPayload(input, options, upper) == Built(p))
            <==> Canonical(p) && upper(p.country) == p.country
  {
    hide Canonical, BuildPayload;
    if input, options :| BuildPayload(input, options, upper) == Built(p) {
      BuiltIsCanonical(input, options, upper);
    }
    if Canonical(p) && upper(p.country) == p.country {
      CanonicalStays(p, Options(None, None, None), upper);
    }
  }

  /** With a name and a phone given, the profile does not matter. */
  lemma ProfileNotNeeded(input: Input, options: Options, upper: string -> string)
    requires CleanText(input.recipientName) != "" && TextOf(input.phone) != ""
    ensures BuildPayload(input, options, upper)
            == BuildPayload(input, options.(fallbackName := None, fallbackPhone := None), upper)
  {
    hide CleanText, NormalizeIndianPhone, IsPhone, CleanIndianPincode, AllDigits;
  }

  lemma NothingIsClean()
    ensures CleanText(None) == ""
  {}

  /** A missing name and phone are taken from the profile as if they had been typed in. */
  lemma ProfileFillsIn(input: Input, options: Options, upper: string -> string)
    requires CleanText(input.recipientName) == "" && TextOf(input.phone) == ""
    ensures BuildPayload(input, options, upper)
            == BuildPayload(input.(recipientName := options.fallbackName, phone := options.fallbackPhone),
                            options.(fallbackName := None, fallbackPhone := None), upper)
  {
    EmptyIsMissing(options.fallbackPhone);
    NothingIsClean();
    hide CleanText, NormalizeIndianPhone, IsPhone, CleanIndianPincode, AllDigits;
  }

  lemma EmptyIsMissing(value: Option<string>)
    ensures TextOf(value) == "" ==> NormalizeIndianPhone(value) == NormalizeIndianPhone(None)
  {}
}
