/**
 * The contact-form validator of assets/js/form.js (class FormValidator): trimming,
 * the required / email / message-length rules, the error state each field is left in,
 * and the submit gate.
 */
module ContactForm {
  import opened Wrappers

  const RequiredSuffix: string := " is required"
  const EmailMessage: string := "Please enter a valid email address"
  const MessageLengthMessage: string := "Message must be at least 10 characters long"
  /** Minimum trimmed length of the field named message (form.js:74). */
  const MinMessageLength: nat := 10

  /**
   * ECMAScript white space and line terminators: the characters String.prototype.trim
   * removes and the regular-expression class \s matches.
   */
  predicate IsWhitespace(c: char) {
    var n := c as int;
    n == 0x09 || n == 0x0A || n == 0x0B || n == 0x0C || n == 0x0D || n == 0x20 || n == 0xA0
    || n == 0x1680 || (0x2000 <= n <= 0x200A) || n == 0x2028 || n == 0x2029 || n == 0x202F
    || n == 0x205F || n == 0x3000 || n == 0xFEFF
  }

  predicate AllWhitespace(s: string) {
    forall k :: 0 <= k < |s| ==> IsWhitespace(s[k])
  }

  /** Leading white space dropped. */
  function TrimStart(s: string): string {
    if s != [] && IsWhitespace(s[0]) then TrimStart(s[1..]) else s
  }

  /** Trailing white space dropped. */
  function TrimEnd(s: string): string {
    if s != [] && IsWhitespace(s[|s| - 1]) then TrimEnd(s[..|s| - 1]) else s
  }

  /** TrimStart keeps a suffix, drops only white space, and stops at the first other character. */
  lemma {:induction false} TrimStartSpec(s: string)
    ensures var r := TrimStart(s);
      |r| <= |s| && r == s[|s| - |r|..] && AllWhitespace(s[..|s| - |r|]) &&
      (r != [] ==> !IsWhitespace(r[0]))
  {
    if s != [] && IsWhitespace(s[0]) {
      TrimStartSpec(s[1..]);
      var r := TrimStart(s);
      assert s[..|s| - |r|] == [s[0]] + s[1..][..|s| - 1 - |r|];
    }
  }

  /** TrimEnd keeps a prefix, drops only white space, and stops at the last other character. */
  lemma {:induction false} TrimEndSpec(s: string)
    ensures var r := TrimEnd(s);
      |r| <= |s| && r == s[..|r|] && AllWhitespace(s[|r|..]) &&
      (r != [] ==> !IsWhitespace(r[|r| - 1]))
  {
    if s != [] && IsWhitespace(s[|s| - 1]) {
      var init := s[..|s| - 1];
      TrimEndSpec(init);
      var r := TrimEnd(s);
      assert s[|r|..] == init[|r|..] + [s[|s| - 1]];
    }
  }

  /** String.prototype.trim (form.js:55): white space dropped from both ends. */
  function Trim(s: string): string {
    TrimEnd(TrimStart(s))
  }

  /**
   * What trim leaves is the piece s[lo..hi] between white-space runs at both ends. It is
   * empty exactly when s is all white space, and otherwise starts and ends with a
   * character that is not white space.
   */
  lemma TrimSpec(s: string)
    ensures var r := Trim(s);
      (r == [] <==> AllWhitespace(s)) &&
      (r != [] ==> !IsWhitespace(r[0]) && !IsWhitespace(r[|r| - 1])) &&
      exists lo, hi :: 0 <= lo <= hi <= |s| && r == s[lo..hi] && AllWhitespace(s[..lo]) && AllWhitespace(s[hi..])
  {
    var front := TrimStart(s);
    var r := TrimEnd(front);
    TrimStartSpec(s);
    TrimEndSpec(front);
    var lo := |s| - |front|;
    var hi := lo + |r|;
    assert r == s[lo..hi];
    assert s[hi..] == front[|r|..];
    assert AllWhitespace(s[..lo]) && AllWhitespace(s[hi..]);
    if r == [] {
      assert front[|r|..] == front;
      assert s[..lo] == s;
    }
  }

  /** Trimming twice is trimming once. */
  lemma TrimIdempotent(s: string)
    ensures Trim(Trim(s)) == Trim(s)
  {
    var t := Trim(s);
    TrimSpec(s);
    assert TrimStart(t) == t;
    TrimStartSpec(t);
    assert TrimEnd(t) == t;
  }

  /**
   * JavaScript's length: UTF-16 code units, two for a character outside the Basic
   * Multilingual Plane (code point 0x10000 or above), one for any other.
   */
  function Utf16Length(s: string): nat {
    if s == [] then 0 else (if s[0] as int >= 0x10000 then 2 else 1) + Utf16Length(s[1..])
  }

  /** The code-unit length lies between the character count and twice it, and equals it without astral characters. */
  lemma {:induction false} Utf16LengthBounds(s: string)
    ensures |s| <= Utf16Length(s) <= 2 * |s|
    ensures (forall k :: 0 <= k < |s| ==> s[k] as int < 0x10000) ==> Utf16Length(s) == |s|
  {
    if s != [] {
      Utf16LengthBounds(s[1..]);
      assert forall k :: 0 <= k < |s| - 1 ==> s[1..][k] == s[k + 1];
    }
  }

  /** Five U+1F600 characters are ten code units long. */
  lemma FiveAstralCharsAreTenUnits()
    ensures Utf16Length("\U{1F600}\U{1F600}\U{1F600}\U{1F600}\U{1F600}") == 10
  {
    var e := "\U{1F600}";
    assert "\U{1F600}\U{1F600}\U{1F600}\U{1F600}\U{1F600}"[1..] == "\U{1F600}\U{1F600}\U{1F600}\U{1F600}";
    assert "\U{1F600}\U{1F600}\U{1F600}\U{1F600}"[1..] == "\U{1F600}\U{1F600}\U{1F600}";
    assert "\U{1F600}\U{1F600}\U{1F600}"[1..] == "\U{1F600}\U{1F600}";
    assert "\U{1F600}\U{1F600}"[1..] == e;
    assert e[1..] == [];
  }

  /** The class [^\s@] of the email pattern. */
  predicate Plain(c: char) {
    !IsWhitespace(c) && c != '@'
  }

  predicate AllPlain(s: string) {
    forall k :: 0 <= k < |s| ==> Plain(s[k])
  }

  /**
   * The pattern ^[^\s@]+@[^\s@]+\.[^\s@]+$ of form.js:67, read structurally: a non-empty
   * plain run, '@' at position at, a non-empty plain run, '.' at position dot, and a
   * non-empty plain run to the end.
   */
  ghost predicate MatchesEmailPattern(s: string) {
    exists at, dot :: 0 < at && at + 1 < dot && dot + 1 < |s| && s[at] == '@' && s[dot] == '.'
      && AllPlain(s[..at]) && AllPlain(s[at + 1..dot]) && AllPlain(s[dot + 1..])
  }

  /** The first position of c in s, if any (String.prototype.indexOf). */
  function IndexOf(s: string, c: char): (r: Option<nat>)
    ensures r.Some? ==> r.value < |s|
  {
    if s == [] then None
    else if s[0] == c then Some(0)
    else match IndexOf(s[1..], c)
      case None => None
      case Some(k) => Some(k + 1)
  }

  /** IndexOf finds nothing exactly when c is absent, and otherwise its first occurrence. */
  lemma {:induction false} IndexOfSpec(s: string, c: char)
    ensures IndexOf(s, c).None? <==> c !in s
    ensures IndexOf(s, c).Some? ==> s[IndexOf(s, c).value] == c && c !in s[..IndexOf(s, c).value]
  {
    if s != [] && s[0] != c {
      IndexOfSpec(s[1..], c);
      assert s == [s[0]] + s[1..];
      match IndexOf(s[1..], c)
      case None =>
      case Some(k) => assert s[..k + 1] == [s[0]] + s[1..][..k];
    }
  }

  lemma {:induction false} IndexOfFirst(s: string, c: char, p: nat)
    requires p < |s| && s[p] == c && forall m :: 0 <= m < p ==> s[m] != c
    ensures IndexOf(s, c) == Some(p)
  {
    if p > 0 {
      IndexOfFirst(s[1..], c, p - 1);
    }
  }

  /**
   * The hand-coded email check: an '@' that is not the first character, no white space
   * and no '@' before it, and after it a domain with no white space and no further '@'
   * holding a '.' that is neither its first nor its last character.
   */
  predicate IsEmail(s: string) {
    match IndexOf(s, '@')
    case None => false
    case Some(at) =>
      var domain := s[at + 1..];
      0 < at && AllPlain(s[..at]) && AllPlain(domain) && |domain| >= 3 && '.' in domain[1..|domain| - 1]
  }

  lemma PlainSlice(s: string, lo: int, hi: int)
    requires AllPlain(s) && 0 <= lo <= hi <= |s|
    ensures AllPlain(s[lo..hi])
  {
    assert forall m :: 0 <= m < hi - lo ==> s[lo..hi][m] == s[lo + m];
  }

  lemma EmailToPattern(s: string)
    requires IsEmail(s)
    ensures MatchesEmailPattern(s)
  {
    IndexOfSpec(s, '@');
    var at := IndexOf(s, '@').value;
    var domain := s[at + 1..];
    var inner := domain[1..|domain| - 1];
    var k :| 0 <= k < |inner| && inner[k] == '.';
    var dot := at + 2 + k;
    assert s[dot] == '.';
    PlainSlice(domain, 0, k + 1);
    assert s[at + 1..dot] == domain[0..k + 1];
    PlainSlice(domain, k + 2, |domain|);
    assert s[dot + 1..] == domain[k + 2..|domain|];
  }

  lemma PlainPrefixFirstAt(s: string, at: nat)
    requires at < |s| && s[at] == '@' && AllPlain(s[..at])
    ensures IndexOf(s, '@') == Some(at)
  {
    forall m | 0 <= m < at ensures s[m] != '@' {
      assert s[m] == s[..at][m];
    }
    IndexOfFirst(s, '@', at);
  }

  lemma PatternDomain(s: string, at: nat, dot: nat)
    requires at + 1 < dot && dot + 1 < |s| && s[dot] == '.'
    requires AllPlain(s[at + 1..dot]) && AllPlain(s[dot + 1..])
    ensures var domain := s[at + 1..];
      AllPlain(domain) && |domain| >= 3 && '.' in domain[1..|domain| - 1]
  {
    var domain := s[at + 1..];
    forall m | 0 <= m < |domain| ensures Plain(domain[m]) {
      var p := at + 1 + m;
      assert domain[m] == s[p];
      if p < dot { assert s[p] == s[at + 1..dot][p - at - 1]; }
      else if p > dot { assert s[p] == s[dot + 1..][p - dot - 1]; }
    }
    var inner := domain[1..|domain| - 1];
    assert inner[dot - at - 2] == '.';
  }

  lemma EmailFromParts(s: string, at: nat)
    requires at < |s| && IndexOf(s, '@') == Some(at) && 0 < at && AllPlain(s[..at])
    requires var domain := s[at + 1..]; AllPlain(domain) && |domain| >= 3 && '.' in domain[1..|domain| - 1]
    ensures IsEmail(s)
  {
  }

  lemma PatternToEmail(s: string)
    requires MatchesEmailPattern(s)
    ensures IsEmail(s)
  {
    var at, dot :| 0 < at && at + 1 < dot && dot + 1 < |s| && s[at] == '@' && s[dot] == '.'
      && AllPlain(s[..at]) && AllPlain(s[at + 1..dot]) && AllPlain(s[dot + 1..]);
    PlainPrefixFirstAt(s, at);
    PatternDomain(s, at, dot);
    EmailFromParts(s, at);
  }

  /** The hand-coded check accepts exactly the strings the regular expression matches. */
  lemma EmailIffPattern(s: string)
    ensures IsEmail(s) <==> MatchesEmailPattern(s)
  {
    if IsEmail(s) { EmailToPattern(s); }
    if MatchesEmailPattern(s) { PatternToEmail(s); }
  }

  datatype Tag = Input | TextArea | OtherTag

  /** An element after a field in its parent: an error box (class form-error) or anything else. */
  datatype Sibling = ErrorBox(message: string, visible: bool) | OtherElement

  /**
   * A form control: its tag, name, id, current value, required attribute, whether it
   * carries the error class, and the elements that follow it in its parent, nearest first.
   */
  datatype Field = Field(tag: Tag, name: string, id: string, value: string, required: bool,
                         hasError: bool, following: seq<Sibling>)

  /** A <label for=...> element and its text. */
  datatype Label = Label(forId: string, text: string)

  datatype Verdict = Valid | Invalid(message: string)

  /** The first label whose for attribute is id, as querySelector finds it (form.js:89). */
  function LabelIndex(labels: seq<Label>, id: string): (r: Option<nat>)
    ensures r.Some? ==> r.value < |labels|
  {
    if labels == [] then None
    else if labels[0].forId == id then Some(0)
    else match LabelIndex(labels[1..], id)
      case None => None
      case Some(k) => Some(k + 1)
  }

  /** LabelIndex misses exactly when no label is for id, and otherwise finds the first one. */
  lemma {:induction false} LabelIndexSpec(labels: seq<Label>, id: string)
    ensures LabelIndex(labels, id).None? <==> forall k :: 0 <= k < |labels| ==> labels[k].forId != id
    ensures LabelIndex(labels, id).Some? ==>
      var r := LabelIndex(labels, id).value;
      labels[r].forId == id && forall k :: 0 <= k < r ==> labels[k].forId != id
  {
    if labels != [] && labels[0].forId != id {
      LabelIndexSpec(labels[1..], id);
      assert forall k :: 1 <= k < |labels| ==> labels[k] == labels[1..][k - 1];
    }
  }

  /** getFieldLabel (form.js:88-91): the matching label's text, else the field's name. */
  function FieldLabel(labels: seq<Label>, id: string, name: string): string {
    match LabelIndex(labels, id)
    case None => name
    case Some(k) => labels[k].text
  }

  /** The text of the first label for id; the name when no label is for id. */
  lemma FieldLabelSpec(labels: seq<Label>, id: string, name: string)
    ensures (forall k :: 0 <= k < |labels| ==> labels[k].forId != id) ==> FieldLabel(labels, id, name) == name
    ensures forall k ::
      (0 <= k < |labels| && labels[k].forId == id && forall m :: 0 <= m < k ==> labels[m].forId != id)
      ==> FieldLabel(labels, id, name) == labels[k].text
  {
    LabelIndexSpec(labels, id);
  }

  /**
   * The decision of validateField (form.js:54-78) on the trimmed value: empty is
   * required-missing, a non-empty email must have the email shape, a non-empty message
   * must be at least ten UTF-16 code units long, anything else non-empty is valid.
   */
  function CheckField(labels: seq<Label>, f: Field): Verdict
  {
    CheckValue(FieldLabel(labels, f.id, f.name), f.name, Trim(f.value))
  }

  /** The same decision on the label, the name and the trimmed value. */
  function CheckValue(labelText: string, name: string, value: string): Verdict
  {
    if value == [] then Invalid(labelText + RequiredSuffix)
    else if name == "email" then (if IsEmail(value) then Valid else Invalid(EmailMessage))
    else if name == "message" && Utf16Length(value) < MinMessageLength then Invalid(MessageLengthMessage)
    else Valid
  }

  /**
   * The rules in order, all on the trimmed value: missing (the message names the label),
   * then the email shape for the field named email, then the minimum length for the
   * field named message; any other non-empty value passes.
   */
  lemma CheckFieldRules(labels: seq<Label>, f: Field)
    ensures var v := Trim(f.value); var r := CheckField(labels, f);
      (v == [] <==> AllWhitespace(f.value)) &&
      (v == [] ==> r == Invalid(FieldLabel(labels, f.id, f.name) + RequiredSuffix)) &&
      (v != [] && f.name == "email" ==> (r.Valid? <==> MatchesEmailPattern(v)) && (r.Invalid? ==> r.message == EmailMessage)) &&
      (v != [] && f.name == "message" ==> (r.Valid? <==> Utf16Length(v) >= MinMessageLength) && (r.Invalid? ==> r.message == MessageLengthMessage)) &&
      (v != [] && f.name != "email" && f.name != "message" ==> r == Valid)
  {
    TrimSpec(f.value);
    EmailIffPattern(Trim(f.value));
  }

  /** The length rule counts code units: five U+1F600 characters make a long enough message. */
  lemma AstralMessageAccepted(labelText: string)
    ensures CheckValue(labelText, "message", "\U{1F600}\U{1F600}\U{1F600}\U{1F600}\U{1F600}") == Valid
  {
    FiveAstralCharsAreTenUnits();
  }

  /** At most one error box directly after the field. */
  predicate NoStackedBoxes(f: Field) {
    !(|f.following| >= 2 && f.following[0].ErrorBox? && f.following[1].ErrorBox?)
  }

  /**
   * showError (form.js:93-105): the field gets the error class; the error box right
   * after it is reused when there is one, otherwise a new one is inserted there; the
   * box shows the message.
   */
  function ShowError(f: Field, message: string): Field {
    var box := ErrorBox(message, true);
    var following := if f.following != [] && f.following[0].ErrorBox? then f.following[0 := box]
                     else [box] + f.following;
    f.(hasError := true, following := following)
  }

  /**
   * After showError the field is marked, the box right after it shows the message, the
   * rest of what follows is as before, nothing else about the field changes, and no
   * second box is stacked on the first.
   */
  lemma ShowErrorSpec(f: Field, message: string)
    ensures var g := ShowError(f, message);
      g.hasError && g.following != [] && g.following[0] == ErrorBox(message, true) &&
      g == f.(hasError := g.hasError, following := g.following) &&
      (f.following != [] && f.following[0].ErrorBox? ==> g.following[1..] == f.following[1..]) &&
      (!(f.following != [] && f.following[0].ErrorBox?) ==> g.following[1..] == f.following) &&
      (NoStackedBoxes(f) ==> NoStackedBoxes(g))
  {
  }

  /** clearError (form.js:107-113): the error class goes, an adjacent error box is only hidden. */
  function ClearError(f: Field): Field {
    var following := if f.following != [] && f.following[0].ErrorBox?
                     then f.following[0 := f.following[0].(visible := false)] else f.following;
    f.(hasError := false, following := following)
  }

  /**
   * After clearError the field is unmarked, an adjacent box keeps its message but is
   * hidden, everything else is as before.
   */
  lemma ClearErrorSpec(f: Field)
    ensures var g := ClearError(f);
      !g.hasError && |g.following| == |f.following| &&
      g == f.(hasError := false, following := g.following) &&
      (f.following != [] && f.following[0].ErrorBox? ==>
         g.following == f.following[0 := ErrorBox(f.following[0].message, false)]) &&
      (!(f.following != [] && f.following[0].ErrorBox?) ==> g.following == f.following) &&
      (NoStackedBoxes(f) ==> NoStackedBoxes(g))
  {
  }

  /** Showing an error again replaces the message in the same box: no second box appears. */
  lemma ShowErrorReusesBox(f: Field, m1: string, m2: string)
    ensures ShowError(ShowError(f, m1), m2) == ShowError(f, m2)
    ensures |ShowError(ShowError(f, m1), m2).following| == |ShowError(f, m1).following|
  {
  }

  /** Clearing leaves the box in place, so a later error reuses it. */
  lemma ClearThenShow(f: Field, m: string)
    ensures ShowError(ClearError(f), m) == ShowError(f, m)
  {
  }

  /** The field after validateField: error shown iff invalid, otherwise cleared (form.js:79-83). */
  function Validated(labels: seq<Label>, f: Field): Field {
    match CheckField(labels, f)
    case Valid => ClearError(f)
    case Invalid(message) => ShowError(f, message)
  }

  /** validateField marks the field exactly when it is invalid and leaves its attributes alone. */
  lemma ValidatedSpec(labels: seq<Label>, f: Field)
    ensures var g := Validated(labels, f);
      (g.hasError <==> CheckField(labels, f).Invalid?) &&
      g.tag == f.tag && g.name == f.name && g.id == f.id && g.value == f.value && g.required == f.required
  {
  }

  /** Validating a field twice leaves it as validating it once. */
  lemma ValidatedIdempotent(labels: seq<Label>, f: Field)
    ensures Validated(labels, Validated(labels, f)) == Validated(labels, f)
  {
    match CheckField(labels, f)
    case Valid =>
    case Invalid(message) => ShowErrorReusesBox(f, message, message);
  }

  /** The fields validateForm looks at: input[required] and textarea[required] (form.js:43). */
  predicate SelectedByValidateForm(f: Field) {
    f.required && (f.tag == Input || f.tag == TextArea)
  }

  /** A control after validateForm has run over it. */
  function AfterValidateForm(labels: seq<Label>, f: Field): Field {
    if SelectedByValidateForm(f) then Validated(labels, f) else f
  }

  /** A control that validateForm does not reject. */
  predicate PassesForm(labels: seq<Label>, f: Field) {
    SelectedByValidateForm(f) ==> CheckField(labels, f).Valid?
  }

  class FormValidator {
    var fields: seq<Field>
    const labels: seq<Label>

    constructor (fields: seq<Field>, labels: seq<Label>)
      ensures this.fields == fields && this.labels == labels
    {
      this.fields := fields;
      this.labels := labels;
    }

    /** validateField on the k-th control (form.js:54-86). */
    method ValidateField(k: nat) returns (isValid: bool)
      requires k < |fields|
      modifies this
      ensures isValid == CheckField(labels, old(fields[k])).Valid?
      ensures fields == old(fields)[k := Validated(labels, old(fields[k]))]
    {
      var field := fields[k];
      var verdict := CheckField(labels, field);
      isValid := verdict.Valid?;
      if !isValid {
        fields := fields[k := ShowError(field, verdict.message)];
      } else {
        fields := fields[k := ClearError(field)];
      }
    }

    /** The input listener (form.js:26): typing into a control clears its error. */
    method ClearErrorOf(k: nat)
      requires k < |fields|
      modifies this
      ensures fields == old(fields)[k := ClearError(old(fields[k]))]
    {
      fields := fields[k := ClearError(fields[k])];
    }

    /**
     * One pass of the loop in validateForm (form.js:46-50): a checked control is
     * validated; the answer is false only for a checked control that fails.
     */
    method ValidateIfSelected(k: nat) returns (ok: bool)
      requires k < |fields|
      modifies this
      ensures ok == PassesForm(labels, old(fields[k]))
      ensures fields == old(fields)[k := AfterValidateForm(labels, old(fields[k]))]
    {
      ok := true;
      if SelectedByValidateForm(fields[k]) {
        ok := ValidateField(k);
      } else {
        assert fields == fields[k := fields[k]];
      }
    }

    /**
     * validateForm (form.js:41-52): every checked control is validated, with no early
     * exit, and the answer is true iff every one of them is valid.
     */
    method ValidateForm() returns (isValid: bool)
      modifies this
      ensures |fields| == |old(fields)|
      ensures forall k :: 0 <= k < |fields| ==> fields[k] == AfterValidateForm(labels, old(fields)[k])
      ensures isValid <==> forall k :: 0 <= k < |old(fields)| ==> PassesForm(labels, old(fields)[k])
    {
      ghost var start := fields;
      isValid := true;
      var i := 0;
      while i < |fields|
        invariant 0 <= i <= |start| == |fields|
        invariant forall k :: 0 <= k < i ==> fields[k] == AfterValidateForm(labels, start[k])
        invariant forall k :: i <= k < |fields| ==> fields[k] == start[k]
        invariant isValid <==> forall k :: 0 <= k < i ==> PassesForm(labels, start[k])
      {
        var fieldOk := ValidateIfSelected(i);
        if !fieldOk {
          isValid := false;
        }
        i := i + 1;
      }
    }

    /** handleSubmit (form.js:30-39): the form is sent iff validateForm says so. */
    method HandleSubmit() returns (defaultPrevented: bool, submitted: bool)
      modifies this
      ensures defaultPrevented
      ensures |fields| == |old(fields)|
      ensures submitted <==> forall k :: 0 <= k < |old(fields)| ==> PassesForm(labels, old(fields)[k])
      ensures forall k :: 0 <= k < |fields| ==> fields[k] == AfterValidateForm(labels, old(fields)[k])
    {
      defaultPrevented := true;
      var isValid := ValidateForm();
      submitted := isValid;
    }
  }
}
