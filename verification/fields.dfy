/** `Field` and its subclasses `Name`, `Phone` and `Birthday`
    (BotAssistant/BotAssistant/address_book.py:12-57): a string holder whose
    constructor and value setter both run `is_valid` and raise `ValueError`
    when it fails. */
module Fields {
  import opened Errors

  /** `\d`, restricted to the ASCII digits. */
  predicate IsDigit(c: char) {
    '0' <= c <= '9'
  }

  predicate AllDigits(s: string) {
    forall i :: 0 <= i < |s| ==> IsDigit(s[i])
  }

  /** Python's `$` without MULTILINE: the end of the string, or the position
      just before a newline that ends the string. */
  predicate AtEnd(s: string, j: int) {
    j == |s| || (0 <= j && j == |s| - 1 && s[j] == '\n')
  }

  /** The pattern `\d{k}$` tried at position `j`. */
  predicate MatchDigits(s: string, j: nat, k: nat)
    decreases k
  {
    if k == 0 then AtEnd(s, j)
    else j < |s| && IsDigit(s[j]) && MatchDigits(s, j + 1, k - 1)
  }

  const PhoneLength: nat := 10

  /** `Phone.is_valid`: `re.match(r'^\d{10}$', s)`, anchored at position 0. */
  predicate PhoneValid(s: string) {
    MatchDigits(s, 0, PhoneLength)
  }

  /** `Field.is_valid`, inherited by `Name`: `bool(value)` of a string. */
  predicate NameValid(s: string) {
    |s| > 0
  }

  /** The strings a ten-digit phone pattern accepts, stated directly:
      ten digits, optionally followed by one newline. */
  predicate PhoneShape(s: string) {
    || (|s| == PhoneLength && AllDigits(s))
    || (|s| == PhoneLength + 1 && AllDigits(s[..PhoneLength]) && s[PhoneLength] == '\n')
  }

  lemma {:induction false} MatchDigitsMeaning(s: string, j: nat, k: nat)
    ensures MatchDigits(s, j, k) <==> j + k <= |s| && AllDigits(s[j..j + k]) && AtEnd(s, j + k)
    decreases k
  {
    if k > 0 {
      MatchDigitsMeaning(s, j + 1, k - 1);
      if j + k <= |s| {
        assert s[j..j + k] == [s[j]] + s[j + 1..j + k];
      }
    }
  }

  /** The regular expression accepts exactly the phone shape. */
  lemma PhoneValidIff(s: string)
    ensures PhoneValid(s) <==> PhoneShape(s)
  {
    MatchDigitsMeaning(s, 0, PhoneLength);
    assert |s| >= PhoneLength ==> s[0..PhoneLength] == s[..PhoneLength];
    if |s| == PhoneLength {
      assert s[..PhoneLength] == s;
    }
  }

  /** A field of some kind holding its current value. */
  datatype Field = Field(kind: FieldKind, value: string)

  /** `is_valid` dispatched on the subclass. `Birthday` asks the date parser,
      which is outside the model and is passed in as `dateParses`. */
  predicate IsValid(kind: FieldKind, v: string, dateParses: string -> bool) {
    match kind
    case NameField => NameValid(v)
    case PhoneField => PhoneValid(v)
    case BirthdayField => dateParses(v)
  }

  /** `Field.__init__`: a field holding `v`, or the `ValueError` raised. */
  function New(kind: FieldKind, v: string, dateParses: string -> bool): (r: Result<Field>)
    ensures r.Ok? <==> IsValid(kind, v, dateParses)
    ensures r.Ok? ==> r.value.kind == kind && r.value.value == v
    ensures r.Err? ==> r.error == ValueError(InvalidField(kind))
  {
    if IsValid(kind, v, dateParses) then Ok(Field(kind, v))
    else Err(ValueError(InvalidField(kind)))
  }

  /** The field after an assignment, and the exception it raised if any. */
  datatype Assigned = Assigned(field: Field, raised: Option<Exception>)

  /** The `value` setter: re-validates, and on failure keeps the old value. */
  function SetValue(f: Field, v: string, dateParses: string -> bool): (r: Assigned)
    ensures r.raised.None? <==> IsValid(f.kind, v, dateParses)
    ensures r.raised.None? ==> r.field.kind == f.kind && r.field.value == v
    ensures r.raised.Some? ==> r.field == f && r.raised.value == ValueError(InvalidField(f.kind))
  {
    if IsValid(f.kind, v, dateParses) then Assigned(f.(value := v), None)
    else Assigned(f, Some(ValueError(InvalidField(f.kind))))
  }

  /** Constructing a `Phone` succeeds exactly on the phone shape and keeps
      the input verbatim, trailing newline included. */
  lemma NewPhoneIff(s: string, dateParses: string -> bool)
    ensures New(PhoneField, s, dateParses).Ok? <==> PhoneShape(s)
    ensures PhoneShape(s) ==> New(PhoneField, s, dateParses) == Ok(Field(PhoneField, s))
    ensures !PhoneShape(s) ==> New(PhoneField, s, dateParses) == Err(ValueError(InvalidField(PhoneField)))
  {
    PhoneValidIff(s);
  }

  /** A `Name` refuses only the empty string, in the constructor and in the
      setter alike; a refused assignment leaves the old name in place. */
  lemma NameRejectsOnlyEmpty(f: Field, v: string, dateParses: string -> bool)
    requires f.kind == NameField
    ensures New(NameField, v, dateParses).Err? <==> v == ""
    ensures SetValue(f, v, dateParses).raised.Some? <==> v == ""
    ensures v == "" ==> SetValue(f, v, dateParses).field.value == f.value
  {
  }

  /** Every mutation goes through `is_valid`, so a valid field stays valid. */
  lemma SetValueKeepsValid(f: Field, v: string, dateParses: string -> bool)
    requires IsValid(f.kind, f.value, dateParses)
    ensures var r := SetValue(f, v, dateParses); IsValid(r.field.kind, r.field.value, dateParses)
  {
  }

  /** Two concrete phones: one with a trailing newline is accepted, nine digits are not. */
  lemma PhoneExamples()
    ensures PhoneValid("0123456789\n")
    ensures !PhoneValid("012345678")
    ensures !PhoneValid("0123456789\n\n")
  {
    PhoneValidIff("0123456789\n");
    PhoneValidIff("012345678");
    PhoneValidIff("0123456789\n\n");
  }
}
