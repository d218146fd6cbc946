/** The error taxonomy. `DomainError` is the umbrella the user interface
    catches; the three task errors are its subclasses, and adapters raise a
    bare `DomainError` for infrastructure failures. `Defect` stands for a
    Python exception outside that hierarchy (`TypeError`, `ValueError`),
    which the interface does not catch. */
module Errors {

  datatype Error =
    | AlreadyExists(taskId: string)
    | NotFound(taskId: string)
    | Validation(field: string, message: string)
    | Infrastructure(reason: string)
    | Defect(exception: string, detail: string)

  /** Caught as a `DomainError` by the interface. */
  predicate IsDomainError(e: Error)
  {
    !e.Defect?
  }

  const AlreadyExistsPrefix := "Zadanie o ID "
  const AlreadyExistsSuffix := " juz istnieje."
  const NotFoundSuffix := " nie istnieje."
  /** "Błąd walidacji pola '" */
  const ValidationPrefix := "B\U{142}\U{105}d walidacji pola '"

  /** `str(error)`. */
  function Message(e: Error): string
  {
    match e
    case AlreadyExists(id) => AlreadyExistsPrefix + id + AlreadyExistsSuffix
    case NotFound(id) => AlreadyExistsPrefix + id + NotFoundSuffix
    case Validation(field, message) => ValidationPrefix + field + "': " + message
    case Infrastructure(reason) => reason
    case Defect(_, detail) => detail
  }

  /** The already-exists message names its id, and different ids give
      different messages. */
  lemma {:induction false} AlreadyExistsMessageNamesId(a: string, b: string)
    ensures Message(AlreadyExists(a)) == Message(AlreadyExists(b)) <==> a == b
  {
    var p := AlreadyExistsPrefix;
    var sfx := AlreadyExistsSuffix;
    if Message(AlreadyExists(a)) == Message(AlreadyExists(b)) {
      assert |a| == |b|;
      assert a == (p + a + sfx)[|p|..|p| + |a|];
      assert b == (p + b + sfx)[|p|..|p| + |b|];
    }
  }

  /** The not-found and already-exists messages are never confused. */
  lemma {:induction false} NotFoundMessageDiffers(a: string, b: string)
    ensures Message(NotFound(a)) != Message(AlreadyExists(b))
  {
    var p := AlreadyExistsPrefix;
    var m1 := p + a + NotFoundSuffix;
    var m2 := p + b + AlreadyExistsSuffix;
    if |a| == |b| {
      assert m1[|p| + |a| + 1] == 'n';
      assert m2[|p| + |b| + 1] == 'j';
    }
  }

  /** The validation message starts with the fixed prefix, then names the
      field in quotes, then gives the message. */
  lemma ValidationMessageShape(field: string, message: string)
    ensures var m := Message(Validation(field, message));
      && m[..|ValidationPrefix|] == ValidationPrefix
      && m[|ValidationPrefix|..|ValidationPrefix| + |field|] == field
      && m[|m| - |message|..] == message
  {
  }
}
