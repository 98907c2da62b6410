/** The interactive onboarding script's decision logic: how one prompt turns an answer into a value or
    a retry, the field validators, `toNullable`, and the parser that turns a comma-separated list of
    module numbers into the module keys a new property starts with. */
module OnboardProperty {
  import opened Wrappers
  import opened JsStrings
  import opened ModuleKeys

  // ---------------------------------------------------------------------------------------------
  // toNullable

  /** `toNullable`: the trimmed string, or nothing when it is blank. */
  function ToNullable(value: string): (r: Option<string>)
    ensures r.None? <==> IsBlank(value)
    ensures r.Some? ==> r.value == Trim(value) && r.value != ""
  {
    TrimEmptyIffBlank(value);
    var trimmed := Trim(value);
    if trimmed == "" then None else Some(trimmed)
  }

  /** Applying `toNullable` to its own result changes nothing. */
  lemma ToNullableIdempotent(value: string)
    requires ToNullable(value).Some?
    ensures ToNullable(ToNullable(value).value) == ToNullable(value)
  {
    TrimIdempotent(value);
    TrimEmptyIffBlank(Trim(value));
  }

  // ---------------------------------------------------------------------------------------------
  // Field validators

  const CodeWhitespaceMessage: string := "Property code cannot contain whitespace."
  const EmailMessage: string := "Enter a valid email address."
  const BillingEmailMessage: string := "Enter a valid email address or leave blank."
  const PasscodeLengthMessage: string := "Passcode should be at least 4 characters."
  const MinPasscodeLength: nat := 4

  predicate HasWhitespace(s: string) {
    exists i :: 0 <= i < |s| && IsWhitespace(s[i])
  }

  /** The property-code validator: the test `/\s/` rejects any whitespace character. */
  function CodeValidator(value: string): Option<string> {
    if HasWhitespace(value) then Some(CodeWhitespaceMessage) else None
  }

  /** An accepted code has nothing for `trim()` to remove, so the value stored is the value typed. */
  lemma AcceptedCodeIsTrimmed(value: string)
    requires CodeValidator(value).None?
    ensures Trim(value) == value
    ensures value != "" ==> ToNullable(value) == Some(value)
  {
    if value != "" {
      assert !IsWhitespace(value[0]);
      assert TrimStart(value) == value;
      assert !IsWhitespace(value[|value| - 1]);
    }
  }

  /** A code is rejected exactly when one of its characters is whitespace. */
  lemma CodeRejectedIff(value: string)
    ensures CodeValidator(value) == Some(CodeWhitespaceMessage) <==> exists i :: 0 <= i < |value| && IsWhitespace(value[i])
    ensures CodeValidator(value).None? <==> forall i :: 0 <= i < |value| ==> !IsWhitespace(value[i])
  {
  }

  /** `s[j..i]` is a non-empty run of characters `.` matches, then `@`, then the non-empty run `s[i+1..k]`:
      one match of the regular expression `.+@.+` somewhere inside `s`. */
  ghost predicate MatchesAround(s: string, j: int, i: int, k: int) {
    && 0 <= j < i && i + 1 < k <= |s|
    && s[i] == '@'
    && (forall m :: j <= m < i ==> !IsLineTerminator(s[m]))
    && (forall m :: i < m < k ==> !IsLineTerminator(s[m]))
  }

  /** `/.+@.+/.test(s)`: the unanchored regular expression matches some part of `s`. */
  ghost predicate EmailPattern(s: string) {
    exists j, i, k :: MatchesAround(s, j, i, k)
  }

  /** The scan the regular expression amounts to: some `@` with a `.`-character on each side. */
  function HasAtBetween(s: string): bool
    decreases |s|
  {
    if |s| < 3 then false
    else (s[1] == '@' && !IsLineTerminator(s[0]) && !IsLineTerminator(s[2])) || HasAtBetween(s[1..])
  }

  /** Position `i` of `s` holds an `@` whose two neighbours are characters `.` matches. */
  predicate AtWithNeighbours(s: string, i: int) {
    0 < i < |s| - 1 && s[i] == '@' && !IsLineTerminator(s[i - 1]) && !IsLineTerminator(s[i + 1])
  }

  /** Dropping the first character shifts every position by one. */
  lemma AtWithNeighboursShift(s: string, i: int)
    requires |s| >= 1 && 1 <= i
    ensures AtWithNeighbours(s[1..], i) <==> AtWithNeighbours(s, i + 1)
  {
  }

  /** The scan succeeds exactly when `s` has an `@` with a `.`-character on each side. */
  lemma {:induction false} HasAtBetweenIff(s: string)
    ensures HasAtBetween(s) <==> exists i :: AtWithNeighbours(s, i)
    decreases |s|
  {
    if |s| >= 3 {
      var t := s[1..];
      HasAtBetweenIff(t);
      if HasAtBetween(s) {
        if AtWithNeighbours(s, 1) {
        } else {
          var i :| AtWithNeighbours(t, i);
          AtWithNeighboursShift(s, i);
        }
      }
      if i :| AtWithNeighbours(s, i) {
        if i != 1 {
          AtWithNeighboursShift(s, i - 1);
        }
      }
    }
  }

  /** The scan decides the regular expression: a match needs only the characters next to its `@`. */
  lemma EmailPatternIff(s: string)
    ensures HasAtBetween(s) <==> EmailPattern(s)
  {
    HasAtBetweenIff(s);
    if HasAtBetween(s) {
      var i :| AtWithNeighbours(s, i);
      assert MatchesAround(s, i - 1, i, i + 2);
    }
    if EmailPattern(s) {
      var j, i, k :| MatchesAround(s, j, i, k);
      assert AtWithNeighbours(s, i);
    }
  }

  /** The email validator of the property and admin email prompts. */
  function EmailValidator(value: string): Option<string> {
    if HasAtBetween(value) then None else Some(EmailMessage)
  }

  /** The billing-email validator: an empty value passes, anything else must be an email. */
  function BillingEmailValidator(value: string): Option<string> {
    if value != "" && !HasAtBetween(value) then Some(BillingEmailMessage) else None
  }

  /** An email is accepted exactly when `.+@.+` matches it; a billing email also when it is empty. */
  lemma EmailValidatorsIff(value: string)
    ensures EmailValidator(value).None? <==> EmailPattern(value)
    ensures EmailValidator(value).Some? ==> EmailValidator(value).value == EmailMessage
    ensures BillingEmailValidator(value).None? <==> value == "" || EmailPattern(value)
    ensures BillingEmailValidator(value).Some? ==> BillingEmailValidator(value).value == BillingEmailMessage
  {
    EmailPatternIff(value);
  }

  /** A JavaScript string's `length`: UTF-16 code units, two for a character outside the Basic Multilingual Plane. */
  function Utf16Length(s: string): (n: nat)
    ensures n >= |s|
  {
    if s == [] then 0 else (if s[0] as int > 0xFFFF then 2 else 1) + Utf16Length(s[1..])
  }

  /** Within the Basic Multilingual Plane, `length` counts characters. */
  lemma {:induction false} Utf16LengthOfBmp(s: string)
    requires forall i :: 0 <= i < |s| ==> s[i] as int <= 0xFFFF
    ensures Utf16Length(s) == |s|
  {
    if s != [] {
      assert forall i :: 0 <= i < |s[1..]| ==> s[1..][i] == s[i + 1];
      Utf16LengthOfBmp(s[1..]);
    }
  }

  /** The admin-passcode validator: `length < 4` is rejected. */
  function PasscodeValidator(value: string): Option<string> {
    if Utf16Length(value) < MinPasscodeLength then Some(PasscodeLengthMessage) else None
  }

  /** Any four characters pass, so does every passcode the kiosk's own four-digit rule accepts. */
  lemma PasscodeValidatorAccepts(value: string)
    requires |value| >= MinPasscodeLength
    ensures PasscodeValidator(value).None?
  {
    assert Utf16Length(value) >= |value|;
  }

  /** Fewer than four UTF-16 code units are refused with the length message. */
  lemma PasscodeValidatorRejectsShort(value: string)
    requires Utf16Length(value) < MinPasscodeLength
    ensures PasscodeValidator(value) == Some(PasscodeLengthMessage)
  {
  }

  predicate IsDigitString(s: string) {
    |s| > 0 && forall i :: 0 <= i < |s| ==> '0' <= s[i] <= '9'
  }

  /** `options` joined with `", "`, as `Array.prototype.join(', ')` writes them. */
  function JoinComma(options: seq<string>): string {
    if options == [] then "" else if |options| == 1 then options[0] else options[0] + ", " + JoinComma(options[1..])
  }

  /** The property-type validator over the enum's values `options`: blank, or a value once upper-cased. */
  function PropertyTypeValidator(options: seq<string>, value: string): Option<string> {
    var upper := ToUpper(Trim(value));
    if upper == "" || upper in options then None else Some("Choose one of: " + JoinComma(options))
  }

  /** The property type stored: nothing for a blank answer, else the upper-cased answer. */
  function PropertyTypeOf(input: string): (r: Option<string>)
    ensures r.None? <==> Trim(input) == ""
  {
    var trimmed := Trim(input);
    if trimmed == "" then None else Some(ToUpper(trimmed))
  }

  /** A property type that passed the validator is stored as nothing or as one of the enum's values. */
  lemma AcceptedPropertyTypeIsOption(options: seq<string>, input: string)
    requires PropertyTypeValidator(options, input).None?
    ensures PropertyTypeOf(input).None? || PropertyTypeOf(input).value in options
  {
  }

  /** A value that is not blank and not one of the options is rejected with the list of options. */
  lemma UnknownPropertyTypeRejected(options: seq<string>, input: string)
    requires Trim(input) != "" && ToUpper(Trim(input)) !in options
    ensures PropertyTypeValidator(options, input) == Some("Choose one of: " + JoinComma(options))
  {
  }

  // ---------------------------------------------------------------------------------------------
  // prompt

  const RequiredMessage: string := "A value is required. Please try again."

  /** `PromptOptions`: an optional default, whether a value is required, an optional validator that returns
      a message or nothing. */
  datatype PromptOptions = PromptOptions(defaultValue: Option<string>, required: bool, validate: Option<string -> Option<string>>)

  /** What one turn of `prompt`'s loop does with an answer: return a value, or print a message and ask again. */
  datatype Step = Accept(value: string) | Retry(message: string)

  /** The value a turn works with: the trimmed answer, or the default (or "") for a blank answer. */
  function Resolved(answer: string, opts: PromptOptions): string {
    if Trim(answer) == "" then opts.defaultValue.GetOr("") else Trim(answer)
  }

  /** Does the validator, if any, object (with a truthy message) to `value`? */
  predicate Rejects(opts: PromptOptions, value: string) {
    opts.validate.Some? && Truthy(opts.validate.value(value))
  }

  /** One turn of `prompt`: the required check comes first, then the validator. */
  function Turn(answer: string, opts: PromptOptions): (r: Step)
    ensures r.Accept? <==> !(opts.required && Trim(Resolved(answer, opts)) == "") && !Rejects(opts, Resolved(answer, opts))
    ensures r.Accept? ==> r.value == Resolved(answer, opts)
    ensures r.Retry? && opts.required && Trim(Resolved(answer, opts)) == "" ==> r.message == RequiredMessage
    ensures r.Retry? && r.message != RequiredMessage ==> Rejects(opts, Resolved(answer, opts)) && Some(r.message) == opts.validate.value(Resolved(answer, opts))
  {
    var value := Resolved(answer, opts);
    if opts.required && Trim(value) == "" then Retry(RequiredMessage)
    else if Rejects(opts, value) then Retry(opts.validate.value(value).value)
    else Accept(value)
  }

  /** A blank answer takes the default; a required field whose default is blank too is asked again. */
  lemma BlankAnswerTakesDefault(answer: string, opts: PromptOptions)
    requires IsBlank(answer)
    ensures Turn(answer, opts).Accept? ==> Turn(answer, opts).value == opts.defaultValue.GetOr("")
    ensures opts.required && Trim(opts.defaultValue.GetOr("")) == "" ==> Turn(answer, opts) == Retry(RequiredMessage)
    ensures Truthy(opts.defaultValue) && !opts.required && opts.validate.None? ==> Turn(answer, opts) == Accept(opts.defaultValue.value)
  {
    TrimEmptyIffBlank(answer);
  }

  /** What `prompt` returns when the user's answers are `answers`: the first accepted value, or nothing
      when every answer is turned away (the real loop then waits for more input). */
  function FirstAccepted(answers: seq<string>, opts: PromptOptions): Option<string> {
    if answers == [] then None
    else match Turn(answers[0], opts)
      case Accept(v) => Some(v)
      case Retry(_) => FirstAccepted(answers[1..], opts)
  }

  /** Whatever `prompt` returns meets the required rule and passes the validator. */
  lemma {:induction false} FirstAcceptedIsValid(answers: seq<string>, opts: PromptOptions)
    requires FirstAccepted(answers, opts).Some?
    ensures var v := FirstAccepted(answers, opts).value;
      !(opts.required && Trim(v) == "") && !Rejects(opts, v)
  {
    if Turn(answers[0], opts).Retry? {
      FirstAcceptedIsValid(answers[1..], opts);
    }
  }

  /** `prompt`'s loop over the answers typed: returns the first accepted value and how many answers it read. */
  method Prompt(answers: seq<string>, opts: PromptOptions) returns (value: Option<string>, asked: nat)
    ensures value == FirstAccepted(answers, opts)
    ensures asked <= |answers|
    ensures value.Some? ==> asked >= 1 && Turn(answers[asked - 1], opts) == Accept(value.value)
    ensures value.None? ==> asked == |answers|
    ensures forall k :: 0 <= k < asked && (value.None? || k < asked - 1) ==> Turn(answers[k], opts).Retry?
  {
    asked := 0;
    while asked < |answers|
      invariant asked <= |answers|
      invariant forall k :: 0 <= k < asked ==> Turn(answers[k], opts).Retry?
      invariant FirstAccepted(answers, opts) == FirstAccepted(answers[asked..], opts)
    {
      assert answers[asked..][1..] == answers[asked + 1..];
      var step := Turn(answers[asked], opts);
      asked := asked + 1;
      if step.Accept? {
        return Some(step.value), asked;
      }
    }
    value := None;
  }

  // ---------------------------------------------------------------------------------------------
  // Module selection

  /** The decimal value of a string of digits. */
  function DecimalValue(s: string): nat
    decreases |s|
  {
    if s == [] then 0 else DecimalValue(s[..|s| - 1]) * 10 + ((s[|s| - 1] as int - '0' as int) % 10)
  }

  /** `Number(part)` read as an option number: a digit string whose value lies in `1..ALL_MODULE_KEYS.length`. */
  function OptionNumber(part: string): (r: Option<nat>)
    ensures r.Some? ==> 1 <= r.value <= |AllModuleKeys|
  {
    if IsDigitString(part) && 1 <= DecimalValue(part) <= |AllModuleKeys| then Some(DecimalValue(part)) else None
  }

  /** The module key a valid option number names (`ALL_MODULE_KEYS[parsed - 1]`). */
  function KeyOf(part: string): string
    requires OptionNumber(part).Some?
  {
    AllModuleKeys[OptionNumber(part).value - 1]
  }

  /** `.map((value) => value.trim())`: each piece trimmed, in order. */
  function TrimAll(pieces: seq<string>): (r: seq<string>)
    ensures |r| == |pieces| && forall i :: 0 <= i < |pieces| ==> r[i] == Trim(pieces[i])
  {
    if pieces == [] then [] else [Trim(pieces[0])] + TrimAll(pieces[1..])
  }

  /** `.map((value) => value.trim()).filter(Boolean)`: the trimmed pieces that are not empty, in order. */
  function NonEmptyTrimmed(pieces: seq<string>): (r: seq<string>)
    ensures forall i :: 0 <= i < |r| ==> r[i] != ""
    ensures forall p :: p in r <==> p in TrimAll(pieces) && p != ""
    ensures |r| <= |pieces|
  {
    if pieces == [] then []
    else
      var rest := NonEmptyTrimmed(pieces[1..]);
      assert TrimAll(pieces) == [Trim(pieces[0])] + TrimAll(pieces[1..]);
      if Trim(pieces[0]) == "" then rest else [Trim(pieces[0])] + rest
  }

  predicate AllValid(parts: seq<string>) {
    forall i :: 0 <= i < |parts| ==> OptionNumber(parts[i]).Some?
  }

  /** The `Set` the loop fills, in insertion order, after it has read `parts`. */
  function Chosen(parts: seq<string>): (r: seq<string>)
    requires AllValid(parts)
    decreases |parts|
  {
    if parts == [] then []
    else
      var prev := Chosen(parts[..|parts| - 1]);
      var key := KeyOf(parts[|parts| - 1]);
      if key in prev then prev else prev + [key]
  }

  /** `ALL_MODULE_KEYS[Number(part) - 1]` for every part, in order, repeats included. */
  function KeysOf(parts: seq<string>): (r: seq<string>)
    requires AllValid(parts)
    ensures |r| == |parts| && forall i :: 0 <= i < |parts| ==> r[i] == KeyOf(parts[i])
  {
    seq(|parts|, i requires 0 <= i < |parts| => KeyOf(parts[i]))
  }

  /** The set holds exactly the keys the parts name, each once. */
  lemma {:induction false} ChosenFacts(parts: seq<string>)
    requires AllValid(parts)
    ensures NoDuplicates(Chosen(parts))
    ensures forall k :: k in Chosen(parts) <==> k in KeysOf(parts)
    decreases |parts|
  {
    if parts != [] {
      var init := parts[..|parts| - 1];
      assert AllValid(init) by {
        assert forall i :: 0 <= i < |init| ==> init[i] == parts[i];
      }
      ChosenFacts(init);
      assert KeysOf(parts) == KeysOf(init) + [KeyOf(parts[|parts| - 1])];
    }
  }

  /** One more valid part adds its key to the set unless the set already holds it. */
  lemma ChosenStep(parts: seq<string>, i: nat, resolved: seq<string>)
    requires i < |parts| && AllValid(parts[..i]) && OptionNumber(parts[i]).Some?
    requires resolved == Chosen(parts[..i])
    ensures AllValid(parts[..i + 1])
    ensures Chosen(parts[..i + 1]) == if KeyOf(parts[i]) in resolved then resolved else resolved + [KeyOf(parts[i])]
  {
    var next := parts[..i + 1];
    assert next[..i] == parts[..i];
    assert forall k :: 0 <= k < i ==> next[k] == parts[..i][k];
  }

  /** The parts of a non-blank selection. */
  function Parts(trimmed: string): seq<string> {
    NonEmptyTrimmed(Split(trimmed, ','))
  }

  /** What the selection parser returns for the raw answer `raw`. */
  function Selection(raw: string): seq<string> {
    var trimmed := Trim(raw);
    if trimmed == "" then Merged(AllModuleKeys)
    else
      var parts := Parts(trimmed);
      if parts == [] || !AllValid(parts) then Merged(AllModuleKeys)
      else Merged(Chosen(parts))
  }

  /** Every selection starts with the base module, repeats nothing and holds only module keys; so the
      script's `selectedModuleKeys.length > 0` test always passes. */
  lemma SelectionHasBase(raw: string)
    ensures var r := Selection(raw);
      |r| >= 1 && r[0] == BaseModuleKey && NoDuplicates(r) && AllKeys(r)
  {
    var trimmed := Trim(raw);
    MergedFacts(AllModuleKeys);
    if trimmed != "" && Parts(trimmed) != [] && AllValid(Parts(trimmed)) {
      MergedFacts(Chosen(Parts(trimmed)));
    }
  }

  /** A blank answer, one with no non-empty part, or one with any part that is not an option number
      enables all six modules. */
  lemma SelectionFallsBackToAll(raw: string)
    requires Trim(raw) == "" || Parts(Trim(raw)) == [] || !AllValid(Parts(Trim(raw)))
    ensures Selection(raw) == AllModuleKeys
  {
    MergedAllIsAll();
  }

  /** A valid selection enables the base module and exactly the modules whose numbers were given. */
  lemma SelectionOfValidParts(raw: string)
    requires Trim(raw) != "" && Parts(Trim(raw)) != [] && AllValid(Parts(Trim(raw)))
    ensures forall k :: k in Selection(raw) <==> k == BaseModuleKey || k in KeysOf(Parts(Trim(raw)))
  {
    var parts := Parts(Trim(raw));
    ChosenFacts(parts);
    MergedFacts(Chosen(parts));
  }

  /** The loop over the parts: the keys they name, in the order the `Set` receives them, or nothing as
      soon as one part is not an option number (the script then returns all modules). */
  method ResolveParts(parts: seq<string>) returns (resolved: Option<seq<string>>)
    ensures resolved.Some? <==> AllValid(parts)
    ensures resolved.Some? ==> resolved.value == Chosen(parts)
  {
    var keys: seq<string> := [];
    for i := 0 to |parts|
      invariant AllValid(parts[..i])
      invariant keys == Chosen(parts[..i])
    {
      var parsed := OptionNumber(parts[i]);
      if parsed.None? {
        assert OptionNumber(parts[i]).None?;
        return None;
      }
      var key := AllModuleKeys[parsed.value - 1];
      ChosenStep(parts, i, keys);
      if key !in keys {
        keys := keys + [key];
      }
    }
    assert parts[..|parts|] == parts;
    resolved := Some(keys);
  }

  /** The selection parser: split, trim, drop empty pieces, read each piece as an option number (falling
      back to all modules at the first bad one), collect the keys, then add the base module. */
  method SelectModules(raw: string) returns (keys: seq<string>)
    ensures keys == Selection(raw)
    ensures |keys| >= 1 && keys[0] == BaseModuleKey && NoDuplicates(keys) && AllKeys(keys)
  {
    var trimmed := Trim(raw);
    if trimmed == "" {
      keys := EnsureBaseModules(AllModuleKeys);
      return;
    }
    var parts := Parts(trimmed);
    if |parts| == 0 {
      keys := EnsureBaseModules(AllModuleKeys);
      return;
    }
    var resolved := ResolveParts(parts);
    if resolved.None? {
      keys := EnsureBaseModules(AllModuleKeys);
      return;
    }
    keys := EnsureBaseModules(resolved.value);
  }
}
