// The field checks the phone book applies before it touches storage:
// a name of 1 to 60 characters, and a phone matching the mask
// ^\+?\d{1,11}$ (an optional '+' and then 1 to 11 digits).

module Validation {

  datatype Option<T> = None | Some(value: T)

  const MaxNameLength := 60
  const MaxPhoneDigits := 11

  /** The two messages validate prints. */
  datatype Diagnostic = InvalidNameLength | BadNumber

  /** What validate returns, with the messages it printed on the way. */
  datatype Verdict = Verdict(valid: bool, diagnostics: seq<Diagnostic>)

  /** `\d`, restricted to the ASCII digits. */
  predicate IsDigit(c: char) {
    '0' <= c <= '9'
  }

  predicate AllDigits(s: string) {
    forall i :: 0 <= i < |s| ==> IsDigit(s[i])
  }

  predicate NameOk(name: string) {
    1 <= |name| <= MaxNameLength
  }

  /** `\d{1,11}$`: the rest of the input is a run of 1 to 11 digits. */
  predicate DigitRun(s: string) {
    1 <= |s| <= MaxPhoneDigits && AllDigits(s)
  }

  /**
   * `re.match(PHONE_MASK, s)`. The optional '+' is greedy: when s starts
   * with '+' it is taken, and giving it back cannot help, since '+' is no
   * digit; so the match succeeds exactly when what follows it is a digit run.
   */
  predicate PhoneMask(s: string) {
    if |s| > 0 && s[0] == '+' then DigitRun(s[1..]) else DigitRun(s)
  }

  /** The mask read as a grammar: a phone is a sign ("" or "+") followed by 1 to 11 digits. */
  lemma PhoneMaskShape(s: string)
    ensures PhoneMask(s) <==>
      exists digits :: DigitRun(digits) && (s == digits || s == "+" + digits)
  {
    if PhoneMask(s) {
      if |s| > 0 && s[0] == '+' {
        assert s == "+" + s[1..];
        assert DigitRun(s[1..]);
      } else {
        assert DigitRun(s);
      }
    } else {
      forall digits | DigitRun(digits) ensures s != digits && s != "+" + digits {
        assert ("+" + digits)[1..] == digits;
        assert IsDigit(digits[0]);
      }
    }
  }

  /** Every phone the mask accepts fits the 12-character phone column. */
  lemma PhoneMaskFitsColumn(s: string)
    requires PhoneMask(s)
    ensures |s| <= MaxPhoneDigits + 1
  {
    if |s| > 0 && s[0] == '+' {
      assert |s[1..]| <= MaxPhoneDigits;
    }
  }

  /**
   * validate(name=None, phone=None): each field that is given is checked,
   * the name first; each failed check prints its message; the result is
   * true exactly when every given field passed.
   */
  function Validate(name: Option<string>, phone: Option<string>): (v: Verdict)
    ensures v.valid <==>
      (name.None? || NameOk(name.value)) && (phone.None? || PhoneMask(phone.value))
    ensures v.valid <==> v.diagnostics == []
    ensures InvalidNameLength in v.diagnostics <==> name.Some? && !NameOk(name.value)
    ensures BadNumber in v.diagnostics <==> phone.Some? && !PhoneMask(phone.value)
    ensures |v.diagnostics| <= 2
    ensures |v.diagnostics| == 2 ==> v.diagnostics == [InvalidNameLength, BadNumber]
  {
    var valid := true;
    var (valid, nameMessages) :=
      if name.Some? && !NameOk(name.value) then (false, [InvalidNameLength]) else (valid, []);
    var (valid, phoneMessages) :=
      if phone.Some? && !PhoneMask(phone.value) then (false, [BadNumber]) else (valid, []);
    Verdict(valid, nameMessages + phoneMessages)
  }

  /** validate() with no field given accepts. */
  lemma ValidateNothing()
    ensures Validate(None, None) == Verdict(true, [])
  {
  }

  /** The boundary cases of the name check. */
  lemma NameBoundaries()
    ensures !NameOk("") && NameOk("a") && NameOk("Mister X")
    ensures !NameOk(Repeat("John Doe", 30))
  {
    RepeatLength("John Doe", 30);
  }

  /** The boundary cases of the phone mask. */
  lemma PhoneBoundaries()
    ensures PhoneMask("+12345678901") && PhoneMask("12345678901")
    ensures !PhoneMask("") && !PhoneMask("+") && !PhoneMask("+123456789012")
    ensures !PhoneMask("John Doe")
  {
    assert "+12345678901"[1..] == "12345678901";
    assert "+123456789012"[1..] == "123456789012";
    assert !IsDigit("John Doe"[0]);
  }

  /** `s * n` in Python. */
  function Repeat(s: string, n: nat): string {
    if n == 0 then "" else s + Repeat(s, n - 1)
  }

  lemma {:induction false} RepeatLength(s: string, n: nat)
    ensures |Repeat(s, n)| == |s| * n
  {
    if n > 0 {
      RepeatLength(s, n - 1);
    }
  }
}
