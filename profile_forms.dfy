/** The profile-update validators of accounts/forms.py: first name, last name
  * and contact number. Django strips surrounding whitespace from every
  * CharField before these run, and an optional field left blank arrives as
  * the empty string. */
module ProfileForms {
  import opened Common

  /** `[A-Za-z.,\- ]`. */
  predicate NameChar(ch: char)
  {
    IsLetter(ch) || ch == '.' || ch == ',' || ch == '-' || ch == ' '
  }

  /** `[0-9+]`. */
  predicate ContactChar(ch: char)
  {
    IsDigit(ch) || ch == '+'
  }

  const FirstNameLimit := 15
  const LastNameLimit := 20
  const CountryCode := "+880"
  /** The `min_length` and `max_length` of the contact field. */
  const ContactLength := 14

  /** The shared shape of `clean_first_name` and `clean_last_name`: the length
    * is checked before the character set. */
  function CleanName(s: string, limit: nat): Check
  {
    if s == "" then Pass
    else if |s| > limit then Fail(TooLong)
    else if !MatchesPlus(s, NameChar) then Fail(BadCharacters)
    else Pass
  }

  function CleanFirstName(s: string): (r: Check)
    ensures r == Pass <==> s == "" || (|s| <= FirstNameLimit && All(s, NameChar))
    ensures r == Fail(TooLong) <==> |s| > FirstNameLimit
    ensures r.Fail? ==> r.error in {TooLong, BadCharacters}
  {
    CleanName(s, FirstNameLimit)
  }

  function CleanLastName(s: string): (r: Check)
    ensures r == Pass <==> s == "" || (|s| <= LastNameLimit && All(s, NameChar))
    ensures r == Fail(TooLong) <==> |s| > LastNameLimit
    ensures r.Fail? ==> r.error in {TooLong, BadCharacters}
  {
    CleanName(s, LastNameLimit)
  }

  /** Every accepted first name is also an accepted last name. */
  lemma FirstNameIsLastName(s: string)
    requires CleanFirstName(s) == Pass
    ensures CleanLastName(s) == Pass
  {
  }

  /** `clean_contact`: a non-empty contact must pass all four tests at once. */
  function CleanContact(s: string): (r: Check)
    ensures r == Pass || r == Fail(InvalidContact)
    ensures r == Pass && s != "" ==>
            11 <= |s| && s[..4] == CountryCode && forall i | 0 <= i < |s| :: ContactChar(s[i])
  {
    if s == "" then Pass
    else if !MatchesPlus(s, ContactChar) || !IsPrefix(CountryCode, s) || CountChar(s, '+') > 1 || |s| < 11
    then Fail(InvalidContact)
    else Pass
  }

  /** The contact field as the form runs it: the field's own length bounds
    * (skipped for the empty value), then `clean_contact`. */
  function ContactField(s: string): (r: Check)
    ensures r == Pass ==> CleanContact(s) == Pass
    ensures r == Pass ==> s == "" || |s| == ContactLength
    ensures s == "" ==> r == Pass
  {
    if s == "" then Pass
    else if |s| < ContactLength then Fail(TooShort)
    else if |s| > ContactLength then Fail(TooLong)
    else CleanContact(s)
  }

  /** What the contact field admits, stated without the four tests: nothing,
    * or "+880" followed by exactly ten digits. */
  lemma {:induction false} ContactFieldAccepts(s: string)
    ensures ContactField(s) == Pass <==>
            s == "" || (|s| == ContactLength && s[..4] == CountryCode &&
                        forall i | 4 <= i < |s| :: IsDigit(s[i]))
  {
    if s != "" && |s| == ContactLength {
      CountCharSplit(s, 1, '+');
      assert s[..1] == [s[0]];
      if ContactField(s) == Pass {
        assert s[..4] == CountryCode;
        assert CountChar(s[..1], '+') == 1;
        forall i | 4 <= i < |s| ensures IsDigit(s[i]) {
          assert s[1..][i - 1] == s[i];
          assert ContactChar(s[i]);
        }
      }
      if s[..4] == CountryCode && forall i | 4 <= i < |s| :: IsDigit(s[i]) {
        assert s[0] == '+';
        forall i | 0 <= i < |s| ensures ContactChar(s[i]) {
          if i < 4 { assert s[i] == CountryCode[i]; }
        }
        forall i | 0 <= i < |s[1..]| ensures s[1..][i] != '+' {
          if i < 3 { assert s[1..][i] == CountryCode[i + 1]; }
          else { assert s[1..][i] == s[i + 1]; }
        }
        assert CountChar(s, '+') == 1;
      }
    }
  }

  /** The `len(contact) < 11` test of `clean_contact` never decides anything:
    * the field has already insisted on 14 characters. */
  lemma ContactLengthTestRedundant(s: string)
    requires |s| == ContactLength
    ensures CleanContact(s) == Pass <==>
            (MatchesPlus(s, ContactChar) && IsPrefix(CountryCode, s) && CountChar(s, '+') <= 1)
  {
  }
}
