/**
 * The patient-data schema of src/components/PatientForm.tsx. Each field runs
 * its checks in order and collects one message per failing check; the form
 * shows the first. A field is accepted when no check fails. As in the schema,
 * the cédula is first checked for emptiness, then stripped of whitespace,
 * dots and hyphens, and the stripped value is what is checked further and
 * submitted.
 */
module PatientForm {
  import opened Wrappers
  import opened Text

  const MSG_CEDULA_REQUIRED := "La cédula es obligatoria"
  const MSG_CEDULA_DIGITS := "Solo se permiten números (sin espacios, puntos ni guiones)"
  const MSG_CEDULA_LENGTH := "La cédula debe tener entre 5 y 12 dígitos"
  const MSG_NOMBRE_REQUIRED := "El nombre es obligatorio"
  const MSG_NOMBRE_SHORT := "Mínimo 3 caracteres"
  const MSG_NOMBRE_CHARS := "El nombre solo puede contener letras y espacios"
  const MSG_CORREO_REQUIRED := "El correo es obligatorio"
  const MSG_CORREO_FORMAT := "Formato de correo no válido (ejemplo: usuario@dominio.com)"
  const MSG_TELEFONO_REQUIRED := "El teléfono es obligatorio"
  const MSG_TELEFONO_FORMAT := "El teléfono debe tener exactamente 10 dígitos numéricos"

  /** What the patient typed. */
  datatype PatientInput = PatientInput(cedula: string, nombre: string, correo: string, telefono: string)

  /** What the form submits once every field is accepted. */
  datatype PatientData = PatientData(cedula: string, nombre: string, correo: string, telefono: string)

  /** A failing check: the field and its message. */
  datatype Issue = Issue(field: string, message: string)

  /** JavaScript's `\s`: the ECMAScript white space and line terminator characters. */
  predicate IsJsSpace(c: char) {
    c == '\t' || c == '\n' || c == '\U{000B}' || c == '\U{000C}' || c == '\r' || c == ' '
    || c == '\U{00A0}' || c == '\U{1680}' || ('\U{2000}' <= c <= '\U{200A}')
    || c == '\U{2028}' || c == '\U{2029}' || c == '\U{202F}' || c == '\U{205F}'
    || c == '\U{3000}' || c == '\U{FEFF}'
  }

  /** The characters the cédula transform removes: `/\s|[.-]/`. */
  predicate IsSeparator(c: char) {
    IsJsSpace(c) || c == '.' || c == '-'
  }

  /** `val.replace(/\s|[.-]/g, "")`. */
  function Strip(s: string): (r: string)
    ensures |r| <= |s|
    ensures forall i :: 0 <= i < |r| ==> !IsSeparator(r[i])
    decreases |s|
  {
    if s == [] then []
    else (if IsSeparator(s[0]) then [] else [s[0]]) + Strip(s[1..])
  }

  /** A string without separators is left as it is. */
  lemma {:induction false} StripClean(s: string)
    requires forall i :: 0 <= i < |s| ==> !IsSeparator(s[i])
    ensures Strip(s) == s
    decreases |s|
  {
    if s != [] {
      StripClean(s[1..]);
      assert s == [s[0]] + s[1..];
    }
  }

  /** Stripping twice is stripping once. */
  lemma StripIdempotent(s: string)
    ensures Strip(Strip(s)) == Strip(s)
  {
    StripClean(Strip(s));
  }

  /** Stripping keeps every other character, in order: it distributes over concatenation. */
  lemma {:induction false} StripConcat(a: string, b: string)
    ensures Strip(a + b) == Strip(a) + Strip(b)
    decreases |a|
  {
    if a == [] {
      assert a + b == b;
    } else {
      assert (a + b)[0] == a[0];
      assert (a + b)[1..] == a[1..] + b;
      StripConcat(a[1..], b);
    }
  }

  /** The cédula rule as stated: after stripping, only digits, five to twelve of them. */
  predicate CedulaOk(raw: string) {
    var v := Strip(raw);
    AllDigits(v) && 5 <= |v| <= 12
  }

  /**
   * The cédula checks: non-empty; then, on the stripped value, `/^\d+$/` and
   * length 5..12. A failed `min(1)` does not stop the two refinements, which
   * then test the empty string and fail as well.
   */
  function CedulaIssues(raw: string): (issues: seq<string>)
    ensures issues == [] <==> CedulaOk(raw)
    ensures raw == [] ==> issues == [MSG_CEDULA_REQUIRED, MSG_CEDULA_DIGITS, MSG_CEDULA_LENGTH]
    ensures raw != [] && !AllDigits(Strip(raw)) ==> issues != [] && issues[0] == MSG_CEDULA_DIGITS
  {
    var v := Strip(raw);
    (if |raw| >= 1 then [] else [MSG_CEDULA_REQUIRED])
    + (if |v| > 0 && AllDigits(v) then [] else [MSG_CEDULA_DIGITS])
    + (if 5 <= |v| <= 12 then [] else [MSG_CEDULA_LENGTH])
  }

  /** The letters the name pattern allows besides ASCII: áéíóúÁÉÍÓÚñÑüÜ. */
  predicate IsSpanishLetter(c: char) {
    c == '\U{00E1}' || c == '\U{00E9}' || c == '\U{00ED}' || c == '\U{00F3}' || c == '\U{00FA}'
    || c == '\U{00C1}' || c == '\U{00C9}' || c == '\U{00CD}' || c == '\U{00D3}' || c == '\U{00DA}'
    || c == '\U{00F1}' || c == '\U{00D1}' || c == '\U{00FC}' || c == '\U{00DC}'
  }

  predicate IsNameChar(c: char) {
    IsAsciiLetter(c) || IsSpanishLetter(c) || IsJsSpace(c)
  }

  /** The name checks: non-empty, at least three characters, letters and spaces only. */
  function NombreIssues(s: string): (issues: seq<string>)
    ensures issues == [] <==> |s| >= 3 && forall i :: 0 <= i < |s| ==> IsNameChar(s[i])
    ensures s == [] ==> issues == [MSG_NOMBRE_REQUIRED, MSG_NOMBRE_SHORT, MSG_NOMBRE_CHARS]
    ensures 1 <= |s| < 3 ==> issues[0] == MSG_NOMBRE_SHORT
  {
    (if |s| >= 1 then [] else [MSG_NOMBRE_REQUIRED])
    + (if |s| >= 3 then [] else [MSG_NOMBRE_SHORT])
    + (if |s| >= 1 && forall i :: 0 <= i < |s| ==> IsNameChar(s[i]) then [] else [MSG_NOMBRE_CHARS])
  }

  /** `[a-zA-Z0-9._%+-]`. */
  predicate IsLocalChar(c: char) {
    IsAsciiLetter(c) || IsDigit(c) || c == '.' || c == '_' || c == '%' || c == '+' || c == '-'
  }

  /** `[a-zA-Z0-9.-]`. */
  predicate IsDomainChar(c: char) {
    IsAsciiLetter(c) || IsDigit(c) || c == '.' || c == '-'
  }

  /**
   * The e-mail pattern `^local@domain\.tld$` read literally: the '@' at `at`
   * and the '.' at `dot` cut the string into a non-empty local part, a
   * non-empty domain and a top-level domain of at least two letters.
   */
  predicate EmailCut(s: string, at: nat, dot: nat) {
    0 < at && at + 1 < dot && dot + 2 < |s| && s[at] == '@' && s[dot] == '.'
    && (forall k :: 0 <= k < at ==> IsLocalChar(s[k]))
    && (forall k :: at < k < dot ==> IsDomainChar(s[k]))
    && (forall k :: dot < k < |s| ==> IsAsciiLetter(s[k]))
  }

  /** The pattern matches when some cut fits. */
  ghost predicate MatchesEmail(s: string) {
    exists at: nat, dot: nat :: EmailCut(s, at, dot)
  }

  /** The last position of `c` in `s`. */
  function LastIndexOf(s: string, c: char): (r: Option<nat>)
    ensures r.Some? ==> r.value < |s| && s[r.value] == c && forall k :: r.value < k < |s| ==> s[k] != c
    ensures r.None? ==> forall k :: 0 <= k < |s| ==> s[k] != c
    decreases |s|
  {
    if s == [] then None
    else if s[|s| - 1] == c then Some(|s| - 1)
    else LastIndexOf(s[..|s| - 1], c)
  }

  /**
   * The e-mail check as a computation: the first '@' ends the local part, the
   * last '.' starts the top-level domain.
   */
  function IsEmail(s: string): bool {
    match IndexOf(s, '@')
    case None => false
    case Some(at) =>
      match LastIndexOf(s, '.')
      case None => false
      case Some(dot) => EmailCut(s, at, dot)
  }

  /** A cut that fits is the one the computation finds: the only '@' and the last '.'. */
  lemma EmailCutUnique(s: string, at: nat, dot: nat)
    requires EmailCut(s, at, dot)
    ensures IndexOf(s, '@') == Some(at) && LastIndexOf(s, '.') == Some(dot)
  {
    IndexOfFirst(s, '@');
    assert s[at] in s;
  }

  /** The computation accepts exactly the strings the pattern matches. */
  lemma IsEmailMatches(s: string)
    ensures IsEmail(s) <==> MatchesEmail(s)
  {
    if IsEmail(s) {
      var at, dot := IndexOf(s, '@').value, LastIndexOf(s, '.').value;
      assert EmailCut(s, at, dot);
    }
    if MatchesEmail(s) {
      var at: nat, dot: nat :| EmailCut(s, at, dot);
      EmailCutUnique(s, at, dot);
    }
  }

  /** The e-mail checks: non-empty, then the pattern. */
  function CorreoIssues(s: string): (issues: seq<string>)
    ensures issues == [] <==> MatchesEmail(s)
    ensures s == [] ==> issues == [MSG_CORREO_REQUIRED, MSG_CORREO_FORMAT]
  {
    IsEmailMatches(s);
    (if |s| >= 1 then [] else [MSG_CORREO_REQUIRED])
    + (if IsEmail(s) then [] else [MSG_CORREO_FORMAT])
  }

  /** The phone checks: non-empty, then exactly ten ASCII digits. */
  function TelefonoIssues(s: string): (issues: seq<string>)
    ensures issues == [] <==> |s| == 10 && AllDigits(s)
    ensures s == [] ==> issues[0] == MSG_TELEFONO_REQUIRED
  {
    (if |s| >= 1 then [] else [MSG_TELEFONO_REQUIRED])
    + (if |s| == 10 && AllDigits(s) then [] else [MSG_TELEFONO_FORMAT])
  }

  function Tagged(field: string, messages: seq<string>): (r: seq<Issue>)
    ensures |r| == |messages|
    ensures forall i :: 0 <= i < |r| ==> r[i] == Issue(field, messages[i])
  {
    seq(|messages|, i requires 0 <= i < |messages| => Issue(field, messages[i]))
  }

  /** The whole schema: the cleaned data when every field passes, else every issue, field by field. */
  function Validate(input: PatientInput): (r: Result<PatientData, seq<Issue>>)
    ensures r.Ok? <==> (CedulaOk(input.cedula) && |input.nombre| >= 3
      && (forall i :: 0 <= i < |input.nombre| ==> IsNameChar(input.nombre[i]))
      && MatchesEmail(input.correo) && |input.telefono| == 10 && AllDigits(input.telefono))
    ensures r.Ok? ==> r.value == PatientData(Strip(input.cedula), input.nombre, input.correo, input.telefono)
    ensures r.Err? ==> r.error != []
  {
    var issues := Tagged("cedula", CedulaIssues(input.cedula)) + Tagged("nombre", NombreIssues(input.nombre))
      + Tagged("correo", CorreoIssues(input.correo)) + Tagged("telefono", TelefonoIssues(input.telefono));
    if issues == [] then Ok(PatientData(Strip(input.cedula), input.nombre, input.correo, input.telefono))
    else Err(issues)
  }

  /** An accepted cédula is submitted in its stripped form, which is accepted again unchanged. */
  lemma AcceptedCedulaIsStable(input: PatientInput)
    requires Validate(input).Ok?
    ensures var c := Validate(input).value.cedula; CedulaOk(c) && Strip(c) == c
  {
    StripIdempotent(input.cedula);
  }

  /** Dots, hyphens and spaces between the digits do not matter: "1.234.567-8" is "12345678". */
  lemma SeparatorsIgnored(a: string, b: string, sep: char)
    requires IsSeparator(sep)
    ensures CedulaIssues(a + [sep] + b) == [] <==> CedulaOk(a + b)
  {
    StripDropsSeparator(a, sep, b);
  }

  /** Removing one separator anywhere in the input does not change what is stripped. */
  lemma StripDropsSeparator(a: string, sep: char, b: string)
    requires IsSeparator(sep)
    ensures Strip(a + [sep] + b) == Strip(a + b)
  {
    StripConcat(a + [sep], b);
    StripConcat(a, [sep]);
    StripConcat(a, b);
    assert [sep][1..] == [];
    assert Strip([sep]) == [];
  }

  /** `defaultValues`: the cédula handed over by the identification step, if any; the rest empty. */
  function InitialInput(initialCedula: Option<string>): (r: PatientInput)
    ensures r.nombre == "" && r.correo == "" && r.telefono == ""
    ensures initialCedula.Some? ==> r.cedula == initialCedula.value
    ensures initialCedula.None? ==> r.cedula == ""
  {
    PatientInput(initialCedula.GetOr(""), "", "", "")
  }

  /** A fresh form without a cédula is refused on every field. */
  lemma EmptyFormRefused()
    ensures Validate(InitialInput(None)).Err?
    ensures var issues := Validate(InitialInput(None)).error;
      issues[0] == Issue("cedula", MSG_CEDULA_REQUIRED) && |issues| == 3 + 3 + 2 + 2
  {
  }
}
