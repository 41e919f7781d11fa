/** Portuguese texts shown to the user: the translation of the backend's
    authentication error messages, and the display label of a category. */
module Translate {
  import opened Types

  const PasswordTooShort := "Password should be at least 6 characters."
  const InvalidEmail := "Unable to validate email address: invalid format"
  const InvalidCredentials := "Invalid login credentials"

  const GenericError := "Erro durante of processo de autentica\U{E7}\U{E3}o"

  predicate IsKnownMessage(msg: string) {
    msg == PasswordTooShort || msg == InvalidEmail || msg == InvalidCredentials
  }

  /** The Portuguese text of an authentication error message. */
  function Translate(msg: string): (r: string)
    ensures msg == PasswordTooShort ==> r == "A palavra de passe tem de ter pelo menos 6 caracteres"
    ensures msg == InvalidEmail ==> r == "Email inv\U{E1}lido"
    ensures msg == InvalidCredentials ==> r == "Detalhes incorretos"
    ensures r == GenericError <==> !IsKnownMessage(msg)
  {
    match msg
    case "Password should be at least 6 characters." =>
      "A palavra de passe tem de ter pelo menos 6 caracteres"
    case "Unable to validate email address: invalid format" => "Email inv\U{E1}lido"
    case "Invalid login credentials" => "Detalhes incorretos"
    case _ => GenericError
  }

  /** The display label of a category. */
  function Label(c: Category): string {
    match c
    case Oral => "oral"
    case Injectable => "injet\U{E1}vel"
    case Topic => "T\U{F3}pico"
    case TopicOftamologic => "T\U{F3}pico Oftamol\U{F3}gico"
    case TopicOtologic => "T\U{F3}pico Otol\U{F3}gico"
    case Nasal => "Nasal"
    case Inhalational => "Inalat\U{F3}rio"
  }

  /** The display label of a category key; any other string is returned as
      it is. */
  function TranslateType(t: string): (r: string)
    ensures forall c: Category :: t == Key(c) ==> r == Label(c)
    ensures ParseCategory(t).None? ==> r == t
  {
    match t
    case "oral" => "oral"
    case "injectable" => "injet\U{E1}vel"
    case "topic" => "T\U{F3}pico"
    case "topicOftamologic" => "T\U{F3}pico Oftamol\U{F3}gico"
    case "topicOtologic" => "T\U{F3}pico Otol\U{F3}gico"
    case "nasal" => "Nasal"
    case "inhalational" => "Inalat\U{F3}rio"
    case _ => t
  }

  /** Distinct categories get distinct labels, so the section headings of a
      prescription never coincide; "oral" is the one key that is its own
      label. */
  lemma LabelsDistinct(c: Category, d: Category)
    ensures c != d ==> TranslateType(Key(c)) != TranslateType(Key(d))
    ensures TranslateType(Key(c)) == Key(c) <==> c == Oral
  {
    if c != d {
      LabelInjective(c, d);
    }
  }

  lemma LabelInjective(c: Category, d: Category)
    requires c != d
    ensures Label(c) != Label(d)
  {
    match c
    case Oral => assert Label(c)[0] == 'o';
    case Injectable => assert Label(c)[0] == 'i';
    case Topic => assert |Label(c)| == 6;
    case TopicOftamologic => assert Label(c)[7] == 'O' && Label(c)[8] == 'f';
    case TopicOtologic => assert Label(c)[7] == 'O' && Label(c)[8] == 't';
    case Nasal => assert Label(c)[0] == 'N';
    case Inhalational => assert Label(c)[0] == 'I';
  }
}
