/**
 * The client form (components/BookingForm.js): its fields start from
 * `initialData`, and a submit is refused while a field is empty or the
 * e-mail does not match `^[^\s@]+@[^\s@]+\.[^\s@]+$`; otherwise the error is
 * cleared and the three fields are handed on as they are.
 *
 * The regular expression is stated twice: `MatchesEmailPattern` follows its
 * structure (three runs of characters that are neither white space nor `@`,
 * joined by `@` and `.`), and `IsValidEmail` is the scan the form's decision
 * is computed with. `IsValidEmailMatchesPattern` proves them equal.
 */
module BookingForm {
  import opened Wrappers
  import opened Text

  const FieldsRequired: string := "Todos los campos son obligatorios."
  const EmailInvalid: string := "Ingresa un email válido."

  /** `[^\s@]*`: no white space and no `@` anywhere in `t`. */
  predicate Plain(t: string)
  {
    forall k :: 0 <= k < |t| ==> t[k] != '@' && !IsJsWhitespace(t[k])
  }

  /**
   * `^[^\s@]+@[^\s@]+\.[^\s@]+$`: `s` is a non-empty plain run, `@`, a
   * non-empty plain run, `.`, and a non-empty plain run, with nothing left over.
   */
  ghost predicate MatchesEmailPattern(s: string)
  {
    exists p, q :: 0 < p && p + 1 < q && q + 1 < |s| && s[p] == '@' && s[q] == '.' &&
      Plain(s[..p]) && Plain(s[p + 1..q]) && Plain(s[q + 1..])
  }

  /** The domain holds a `.` that is neither its first nor its last character. */
  predicate HasInnerDot(domain: string)
  {
    exists i :: 0 < i < |domain| - 1 && domain[i] == '.'
  }
  /** No character of `t` is white space. */
  predicate NoWhitespace(t: string)
  {
    forall k :: 0 <= k < |t| ==> !IsJsWhitespace(t[k])
  }

  /**
   * The test the form applies: no white space, a first `@` that is not the
   * first character and is the only one, and an inner dot in what follows it.
   */
  predicate IsValidEmail(s: string)
  {
    match FirstIndex(s, '@')
    case None => false
    case Some(p) => p > 0 && NoWhitespace(s) && '@' !in s[p + 1..] && HasInnerDot(s[p + 1..])
  }

  /** The scan accepts exactly the strings the regular expression matches. */
  lemma IsValidEmailMatchesPattern(s: string)
    ensures IsValidEmail(s) <==> MatchesEmailPattern(s)
  {
    if IsValidEmail(s) {
      ValidEmailMatches(s);
    }
    if MatchesEmailPattern(s) {
      PatternIsValidEmail(s);
    }
  }

  /** A slice without `@` of a string without white space is a plain run. */
  lemma PlainSlice(s: string, i: int, j: int)
    requires 0 <= i <= j <= |s| && NoWhitespace(s) && '@' !in s[i..j]
    ensures Plain(s[i..j])
  {
    var t := s[i..j];
    forall k | 0 <= k < |t|
      ensures t[k] != '@' && !IsJsWhitespace(t[k])
    {
      assert t[k] == s[i + k];
      assert t[k] in t;
    }
  }

  lemma ValidEmailMatches(s: string)
    requires IsValidEmail(s)
    ensures MatchesEmailPattern(s)
  {
    var p := FirstIndex(s, '@').value;
    var domain := s[p + 1..];
    var i :| 0 < i < |domain| - 1 && domain[i] == '.';
    var q := p + 1 + i;
    assert s[q] == '.';
    PlainSlice(s, 0, p);
    assert s[p + 1..q] == domain[..i] && s[q + 1..] == domain[i + 1..];
    assert '@' !in domain[..i] && '@' !in domain[i + 1..] by {
      assert forall x :: x in domain[..i] ==> x in domain;
      assert forall x :: x in domain[i + 1..] ==> x in domain;
    }
    PlainSlice(s, p + 1, q);
    PlainSlice(s, q + 1, |s|);
  }

  /** Plain runs joined by a plain character form a plain run. */
  lemma PlainJoin(a: string, c: char, b: string)
    requires Plain(a) && Plain(b) && c != '@' && !IsJsWhitespace(c)
    ensures Plain(a + [c] + b)
  {
    var t := a + [c] + b;
    forall k | 0 <= k < |t|
      ensures t[k] != '@' && !IsJsWhitespace(t[k])
    {
      if k < |a| {
        assert t[k] == a[k];
      } else if k > |a| {
        assert t[k] == b[k - |a| - 1];
      }
    }
  }

  /** A plain run holds no `@`. */
  lemma PlainHasNoAt(t: string)
    requires Plain(t)
    ensures '@' !in t
  {
  }

  /** Plain runs around an `@` leave no white space. */
  lemma NoWhitespaceAroundAt(a: string, b: string)
    requires Plain(a) && Plain(b)
    ensures NoWhitespace(a + ['@'] + b)
  {
    var t := a + ['@'] + b;
    forall k | 0 <= k < |t|
      ensures !IsJsWhitespace(t[k])
    {
      if k < |a| {
        assert t[k] == a[k];
      } else if k > |a| {
        assert t[k] == b[k - |a| - 1];
      }
    }
  }

  lemma PatternIsValidEmail(s: string)
    requires MatchesEmailPattern(s)
    ensures IsValidEmail(s)
  {
    var p, q :| 0 < p && p + 1 < q && q + 1 < |s| && s[p] == '@' && s[q] == '.' &&
      Plain(s[..p]) && Plain(s[p + 1..q]) && Plain(s[q + 1..]);
    PiecesAreValidEmail(s, p, q);
  }

  lemma PiecesAreValidEmail(s: string, p: nat, q: nat)
    requires 0 < p && p + 1 < q && q + 1 < |s| && s[p] == '@' && s[q] == '.'
    requires Plain(s[..p]) && Plain(s[p + 1..q]) && Plain(s[q + 1..])
    ensures IsValidEmail(s)
  {
    var local, domain := s[..p], s[p + 1..];
    assert Plain(domain) by {
      assert domain == s[p + 1..q] + ['.'] + s[q + 1..];
      PlainJoin(s[p + 1..q], '.', s[q + 1..]);
    }
    assert s == local + ['@'] + domain;
    PlainHasNoAt(local);
    PlainHasNoAt(domain);
    FirstIndexAt(s, '@', p);
    NoWhitespaceAroundAt(local, domain);
    assert domain[q - (p + 1)] == '.';
    assert HasInnerDot(domain);
  }

  /** `initialData.name || ""` and the like: a missing or empty value gives `""`. */
  function OrEmpty(value: Option<string>): (field: string)
    ensures value.Some? ==> field == value.value
    ensures field != "" ==> value == Some(field)
  {
    if value.Some? then value.value else ""
  }

  /** The `initialData` prop; it defaults to `{}`, which is all `None`. */
  datatype InitialData = InitialData(name: Option<string>, email: Option<string>, phone: Option<string>)

  /** The form's state: the three fields and the error shown. */
  datatype FormState = FormState(name: string, email: string, phone: string, error: string)

  /** What `onSubmit` receives. */
  datatype ClientInfo = ClientInfo(name: string, email: string, phone: string)

  function Initial(data: InitialData): (st: FormState)
    ensures st.error == ""
    ensures Some(st.name) == data.name || (st.name == "" && data.name.None?)
    ensures Some(st.email) == data.email || (st.email == "" && data.email.None?)
    ensures Some(st.phone) == data.phone || (st.phone == "" && data.phone.None?)
  {
    FormState(OrEmpty(data.name), OrEmpty(data.email), OrEmpty(data.phone), "")
  }

  /** `handleSubmit`: the new state and the value passed to `onSubmit`, if it is called. */
  function Submit(st: FormState): (r: (FormState, Option<ClientInfo>))
    ensures r.0.name == st.name && r.0.email == st.email && r.0.phone == st.phone
    ensures st.name == "" || st.email == "" || st.phone == "" ==> r == (r.0, None) && r.0.error == FieldsRequired
    ensures st.name != "" && st.email != "" && st.phone != "" && !MatchesEmailPattern(st.email) ==>
      r.1.None? && r.0.error == EmailInvalid
    ensures r.1.Some? <==> st.name != "" && st.phone != "" && MatchesEmailPattern(st.email)
    ensures r.1.Some? ==> r.1.value == ClientInfo(st.name, st.email, st.phone) && r.0.error == ""
  {
    IsValidEmailMatchesPattern(st.email);
    if st.name == "" || st.email == "" || st.phone == "" then
      (st.(error := FieldsRequired), None)
    else if !IsValidEmail(st.email) then
      (st.(error := EmailInvalid), None)
    else
      (st.(error := ""), Some(ClientInfo(st.name, st.email, st.phone)))
  }

  /** The error shown is empty exactly when the fields were handed on. */
  lemma ErrorClearedIffSubmitted(st: FormState)
    ensures Submit(st).0.error == "" <==> Submit(st).1.Some?
  {
  }

  /** A valid e-mail has exactly one `@`, no white space, and a non-empty part before the `@`. */
  lemma ValidEmailShape(s: string)
    requires MatchesEmailPattern(s)
    ensures exists p :: 0 < p < |s| && s[p] == '@' && '@' !in s[..p] && '@' !in s[p + 1..]
    ensures forall k :: 0 <= k < |s| ==> !IsJsWhitespace(s[k])
  {
    PatternIsValidEmail(s);
    var p := FirstIndex(s, '@').value;
    assert 0 < p < |s| && s[p] == '@';
  }

  /** A sample address the form accepts. */
  lemma SampleAccepted()
    ensures MatchesEmailPattern("ana@mail.cl")
  {
    var s := "ana@mail.cl";
    assert s[..3] == "ana" && s[3 + 1..8] == "mail" && s[8 + 1..] == "cl";
    assert Plain("ana") && Plain("mail") && Plain("cl");
    assert s[3] == '@' && s[8] == '.';
  }

  /** A sample address the form refuses: its domain has no dot. */
  lemma SampleWithoutDotRefused()
    ensures !MatchesEmailPattern("ana@mail")
  {
    var s := "ana@mail";
    assert s[..3] == "ana" && s[3] == '@';
    FirstIndexAt(s, '@', 3);
    assert s[4..] == "mail";
    IsValidEmailMatchesPattern(s);
  }
}
