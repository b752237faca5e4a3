/**
  The four rule sets of `domain/repository/ValidationRepositoryImpl.kt`. Each
  builds a `Validation` with fixed bounds and a pattern `^[class]{min,max}$`
  whose repetition bounds equal the size bounds, and runs the standard block:
  not-empty, then size, then pattern.
 */
module ValidationRepository {
  import opened Utf16
  import opened Pattern
  import opened Validation

  /** The display names the injected `Context` resolves the value-name resources to. */
  datatype Context = Context(id: string, password: string, nickname: string, name: string)

  predicate IsAsciiLetter(u: CodeUnit) { Unit('A') <= u <= Unit('Z') || Unit('a') <= u <= Unit('z') }

  /** `\d` without the Unicode-character-class flag: the ASCII digits only. */
  predicate IsAsciiDigit(u: CodeUnit) { Unit('0') <= u <= Unit('9') }

  /** The Hangul compatibility consonants U+3131 to U+314E. */
  predicate IsHangulConsonant(u: CodeUnit) { Unit('ㄱ') <= u <= Unit('ㅎ') }

  /** The precomposed Hangul syllables U+AC00 to U+D7A3. */
  predicate IsHangulSyllable(u: CodeUnit) { Unit('가') <= u <= Unit('힣') }

  /** `[A-Za-z\d]` */
  const AlphanumericClass: CharClass :=
    [Range(Unit('A'), Unit('Z')), Range(Unit('a'), Unit('z')), Range(Unit('0'), Unit('9'))]

  /** `[A-Za-zㄱ-ㅎ가-힣\d]` */
  const NicknameClass: CharClass :=
    [ Range(Unit('A'), Unit('Z')), Range(Unit('a'), Unit('z')), Range(Unit('ㄱ'), Unit('ㅎ')),
      Range(Unit('가'), Unit('힣')), Range(Unit('0'), Unit('9')) ]

  /** `[ㄱ-ㅎ가-힣]` */
  const HangulClass: CharClass := [Range(Unit('ㄱ'), Unit('ㅎ')), Range(Unit('가'), Unit('힣'))]

  const IdRegex: Anchored := Anchored(AlphanumericClass, 5, 15)
  const PasswordRegex: Anchored := Anchored(AlphanumericClass, 5, 15)
  const NicknameRegex: Anchored := Anchored(NicknameClass, 1, 10)
  const NameRegex: Anchored := Anchored(HangulClass, 2, 5)

  /** The pattern-failure messages; the id rule passes an empty one. */
  const IdPatternMessage: string := ""
  const PasswordPatternMessage: string := "비밀번호는 영문과 숫자, 특수 문자를 모두 포함해야 합니다."
  const NicknamePatternMessage: string := "닉네임은 한글과 영어, 숫자만 입력 가능합니다."
  const NamePatternMessage: string := "이름은 한글만 입력 가능합니다."

  predicate IsIdChar(u: CodeUnit) { IsAsciiLetter(u) || IsAsciiDigit(u) }

  predicate IsNicknameChar(u: CodeUnit) {
    IsAsciiLetter(u) || IsAsciiDigit(u) || IsHangulConsonant(u) || IsHangulSyllable(u)
  }

  predicate IsNameChar(u: CodeUnit) { IsHangulConsonant(u) || IsHangulSyllable(u) }

  lemma AlphanumericClassMembers()
    ensures forall u :: InClass(AlphanumericClass, u) <==> IsIdChar(u)
  {
    forall u ensures InClass(AlphanumericClass, u) <==> IsIdChar(u) {
      if IsIdChar(u) {
        var i := if Unit('A') <= u <= Unit('Z') then 0 else if Unit('a') <= u <= Unit('z') then 1 else 2;
        assert AlphanumericClass[i].lo <= u <= AlphanumericClass[i].hi;
      }
    }
  }

  lemma NicknameClassMembers()
    ensures forall u :: InClass(NicknameClass, u) <==> IsNicknameChar(u)
  {
    forall u ensures InClass(NicknameClass, u) <==> IsNicknameChar(u) {
      if IsNicknameChar(u) {
        var i :=
          if Unit('A') <= u <= Unit('Z') then 0
          else if Unit('a') <= u <= Unit('z') then 1
          else if IsHangulConsonant(u) then 2
          else if IsHangulSyllable(u) then 3
          else 4;
        assert NicknameClass[i].lo <= u <= NicknameClass[i].hi;
      }
    }
  }

  lemma HangulClassMembers()
    ensures forall u :: InClass(HangulClass, u) <==> IsNameChar(u)
  {
    forall u ensures InClass(HangulClass, u) <==> IsNameChar(u) {
      if IsNameChar(u) {
        var i := if IsHangulConsonant(u) then 0 else 1;
        assert HangulClass[i].lo <= u <= HangulClass[i].hi;
      }
    }
  }

  function IsIdAvailable(context: Context, id: KString): (r: ValidationResult)
    ensures r == Success <==> 5 <= |id| <= 15 && forall i :: 0 <= i < |id| ==> IsIdChar(id[i])
  {
    var v := Validation(id, context.id, 5, 15, IdRegex);
    StandardBlockOutcome(v, IdPatternMessage);
    AlphanumericClassMembers();
    Execute(v, StandardBlock(IdPatternMessage))
  }

  function IsPasswordAvailable(context: Context, password: KString): (r: ValidationResult)
    ensures r == Success <==> 5 <= |password| <= 15 && forall i :: 0 <= i < |password| ==> IsIdChar(password[i])
  {
    var v := Validation(password, context.password, 5, 15, PasswordRegex);
    StandardBlockOutcome(v, PasswordPatternMessage);
    AlphanumericClassMembers();
    Execute(v, StandardBlock(PasswordPatternMessage))
  }

  function IsNicknameAvailable(context: Context, nickname: KString): (r: ValidationResult)
    ensures r == Success <==> 1 <= |nickname| <= 10 && forall i :: 0 <= i < |nickname| ==> IsNicknameChar(nickname[i])
  {
    var v := Validation(nickname, context.nickname, 1, 10, NicknameRegex);
    StandardBlockOutcome(v, NicknamePatternMessage);
    NicknameClassMembers();
    Execute(v, StandardBlock(NicknamePatternMessage))
  }

  function IsNameAvailable(context: Context, name: KString): (r: ValidationResult)
    ensures r == Success <==> 2 <= |name| <= 5 && forall i :: 0 <= i < |name| ==> IsNameChar(name[i])
  {
    var v := Validation(name, context.name, 2, 5, NameRegex);
    StandardBlockOutcome(v, NamePatternMessage);
    HangulClassMembers();
    Execute(v, StandardBlock(NamePatternMessage))
  }

  /**
    The outcome of a rule set whose pattern's repetition bounds equal its
    size bounds: blank, then size, and past the size check a pattern failure
    means some code unit lies outside the class. It is the declarative
    counterpart of `StandardBlockOutcome`, which speaks of the pattern.
   */
  function RuleOutcome(s: KString, valueName: string, min: int, max: int, allowed: CodeUnit -> bool, patternMessage: string): ValidationResult {
    if |s| == 0 then NotAvailable(Blank(valueName))
    else if !(min <= |s| <= max) then NotAvailable(Size(valueName, min, max))
    else if exists i :: 0 <= i < |s| && !allowed(s[i]) then NotAvailable(Custom(patternMessage))
    else Success
  }

  lemma IdOutcome(context: Context, id: KString)
    ensures IsIdAvailable(context, id) == RuleOutcome(id, context.id, 5, 15, IsIdChar, IdPatternMessage)
  {
    StandardBlockOutcome(Validation(id, context.id, 5, 15, IdRegex), IdPatternMessage);
    AlphanumericClassMembers();
  }

  lemma PasswordOutcome(context: Context, password: KString)
    ensures IsPasswordAvailable(context, password) == RuleOutcome(password, context.password, 5, 15, IsIdChar, PasswordPatternMessage)
  {
    StandardBlockOutcome(Validation(password, context.password, 5, 15, PasswordRegex), PasswordPatternMessage);
    AlphanumericClassMembers();
  }

  lemma NicknameOutcome(context: Context, nickname: KString)
    ensures IsNicknameAvailable(context, nickname) == RuleOutcome(nickname, context.nickname, 1, 10, IsNicknameChar, NicknamePatternMessage)
  {
    StandardBlockOutcome(Validation(nickname, context.nickname, 1, 10, NicknameRegex), NicknamePatternMessage);
    NicknameClassMembers();
  }

  lemma NameOutcome(context: Context, name: KString)
    ensures IsNameAvailable(context, name) == RuleOutcome(name, context.name, 2, 5, IsNameChar, NamePatternMessage)
  {
    StandardBlockOutcome(Validation(name, context.name, 2, 5, NameRegex), NamePatternMessage);
    HangulClassMembers();
  }

  /** Empty input reports the blank message in every rule set, never the size message. */
  lemma EmptyInputIsBlank(context: Context)
    ensures IsIdAvailable(context, []) == NotAvailable(Blank(context.id))
    ensures IsPasswordAvailable(context, []) == NotAvailable(Blank(context.password))
    ensures IsNicknameAvailable(context, []) == NotAvailable(Blank(context.nickname))
    ensures IsNameAvailable(context, []) == NotAvailable(Blank(context.name))
  {
    IdOutcome(context, []);
    PasswordOutcome(context, []);
    NicknameOutcome(context, []);
    NameOutcome(context, []);
  }

  /**
    An id of valid length holding a disallowed code unit is rejected with an
    empty message, so a `NotAvailable` result can carry empty text.
   */
  lemma IdBadCharHasEmptyMessage(context: Context, id: KString, j: nat)
    requires 5 <= |id| <= 15 && j < |id| && !IsIdChar(id[j])
    ensures IsIdAvailable(context, id) == NotAvailable(Custom(""))
    ensures GetErrorMessageOrNull(IsIdAvailable(context, id)) == Some(Custom(""))
  {
    IdOutcome(context, id);
  }

  /**
    The password rule is the id rule under another name and pattern message:
    with the same display name, the results agree except that the id rule's
    empty pattern message becomes the password message.
   */
  lemma PasswordMirrorsId(context: Context, s: KString)
    ensures IsPasswordAvailable(context, s) == Success <==> IsIdAvailable(context, s) == Success
    ensures IsPasswordAvailable(context, s) ==
      var r := IsIdAvailable(context.(id := context.password), s);
      if r == NotAvailable(Custom(IdPatternMessage)) then NotAvailable(Custom(PasswordPatternMessage)) else r
  {
    PasswordOutcome(context, s);
    IdOutcome(context.(id := context.password), s);
  }

  /**
    A password of valid length that holds anything but an ASCII letter or
    digit is rejected at the pattern, although the pattern message asks for
    special characters.
   */
  lemma PasswordRejectsSpecialCharacters(context: Context, password: KString, j: nat)
    requires 5 <= |password| <= 15 && j < |password| && !IsIdChar(password[j])
    ensures IsPasswordAvailable(context, password) == NotAvailable(Custom(PasswordPatternMessage))
  {
    PasswordOutcome(context, password);
  }

  /** A name of valid length with a Latin letter or a digit fails the pattern check. */
  lemma NameRejectsLatinAndDigits(context: Context, name: KString, j: nat)
    requires 2 <= |name| <= 5 && j < |name| && (IsAsciiLetter(name[j]) || IsAsciiDigit(name[j]))
    ensures IsNameAvailable(context, name) == NotAvailable(Custom(NamePatternMessage))
  {
    NameOutcome(context, name);
  }

  /** Whether a value is accepted never depends on the context, only on the value. */
  lemma AcceptanceIgnoresContext(c1: Context, c2: Context, s: KString)
    ensures IsIdAvailable(c1, s).Success? == IsIdAvailable(c2, s).Success?
    ensures IsPasswordAvailable(c1, s).Success? == IsPasswordAvailable(c2, s).Success?
    ensures IsNicknameAvailable(c1, s).Success? == IsNicknameAvailable(c2, s).Success?
    ensures IsNameAvailable(c1, s).Success? == IsNameAvailable(c2, s).Success?
  {
  }

  /**
    Text with a character outside the Basic Multilingual Plane is accepted
    by no rule set: its surrogate code units lie outside every class.
   */
  lemma SupplementaryTextRejected(context: Context, text: string, k: nat)
    requires k < |text| && text[k] as int >= 0x1_0000
    ensures IsIdAvailable(context, Encode(text)) != Success
    ensures IsPasswordAvailable(context, Encode(text)) != Success
    ensures IsNicknameAvailable(context, Encode(text)) != Success
    ensures IsNameAvailable(context, Encode(text)) != Success
  {
    EncodeSupplementary(text, k);
    var j :| 0 <= j < |Encode(text)| && IsSurrogate(Encode(text)[j]);
    assert !IsNicknameChar(Encode(text)[j]);
  }

  /** The space U+0020. */
  const Space: CodeUnit := Unit(' ')

  /**
    The not-empty check tests the raw value, so a value holding spaces is
    not blank; no rule accepts it, since no class contains a space. Within
    the size bounds it fails the pattern, outside them the size check.
   */
  lemma SpacesNeverAccepted(context: Context, s: KString, j: nat)
    requires j < |s| && s[j] == Space
    ensures IsIdAvailable(context, s) ==
      if 5 <= |s| <= 15 then NotAvailable(Custom(IdPatternMessage)) else NotAvailable(Size(context.id, 5, 15))
    ensures IsPasswordAvailable(context, s) ==
      if 5 <= |s| <= 15 then NotAvailable(Custom(PasswordPatternMessage)) else NotAvailable(Size(context.password, 5, 15))
    ensures IsNicknameAvailable(context, s) ==
      if 1 <= |s| <= 10 then NotAvailable(Custom(NicknamePatternMessage)) else NotAvailable(Size(context.nickname, 1, 10))
    ensures IsNameAvailable(context, s) ==
      if 2 <= |s| <= 5 then NotAvailable(Custom(NamePatternMessage)) else NotAvailable(Size(context.name, 2, 5))
  {
    IdOutcome(context, s);
    PasswordOutcome(context, s);
    NicknameOutcome(context, s);
    NameOutcome(context, s);
    assert !IsNicknameChar(s[j]);
  }

  /** A single space is too short for an id and gets the size message, not the blank one. */
  lemma SpaceIdExample(context: Context)
    ensures IsIdAvailable(context, [Space]) == NotAvailable(Size(context.id, 5, 15))
  {
    SpacesNeverAccepted(context, [Space], 0);
  }

  /** A four-character id is too short. */
  lemma IdTooShortExample(context: Context)
    ensures IsIdAvailable(context, Encode("ab12")) == NotAvailable(Size(context.id, 5, 15))
  {
    EncodeBmp("ab12");
    IdOutcome(context, Encode("ab12"));
  }

  /** Five lower-case letters make a valid id. */
  lemma IdAcceptedExample(context: Context)
    ensures IsIdAvailable(context, Encode("abcde")) == Success
  {
    EncodeBmp("abcde");
  }

  /** A hyphen is not allowed in an id, and the rejection carries an empty message. */
  lemma IdHyphenExample(context: Context)
    ensures IsIdAvailable(context, Encode("abc-de")) == NotAvailable(Custom(""))
  {
    EncodeBmp("abc-de");
    IdBadCharHasEmptyMessage(context, Encode("abc-de"), 3);
  }

  /** A nickname may mix Hangul syllables, a Hangul consonant and a digit. */
  lemma NicknameExample(context: Context)
    ensures IsNicknameAvailable(context, Encode("모이ㅎ7")) == Success
  {
    EncodeBmp("모이ㅎ7");
  }

  /** A three-syllable Hangul name is accepted. */
  lemma NameAcceptedExample(context: Context)
    ensures IsNameAvailable(context, Encode("김철수")) == Success
  {
    EncodeBmp("김철수");
  }

  /** A Latin name fails the name pattern. */
  lemma NameLatinExample(context: Context)
    ensures IsNameAvailable(context, Encode("Kim")) == NotAvailable(Custom(NamePatternMessage))
  {
    EncodeBmp("Kim");
    NameRejectsLatinAndDigits(context, Encode("Kim"), 0);
  }
}
