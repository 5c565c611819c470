/** Enumerations shared by the declension engine and the request reader
    (inflections.h), plus the small Option/Result wrappers the model uses for
    "no rule found" and for the invalid-rule-format error. */
module Types {

  /** `sex` of inflections.h; `Unknown` asks the engine to infer it. */
  datatype Sex = Male | Female | Unknown

  /** `grammatical_case` of inflections.h; `All` asks for the six cases at once. */
  datatype GrammaticalCase =
    | Nominative
    | Genitive
    | Dative
    | Accusative
    | Instrumental
    | Prepositional
    | All

  /** The six real cases, in the order the engine emits them in "all" mode. */
  const AllCases: seq<GrammaticalCase> :=
    [Nominative, Genitive, Dative, Accusative, Instrumental, Prepositional]

  /** `maxWords` of inflections.cpp: capacity of every split buffer. */
  const MaxWords: nat := 10

  datatype Option<T> = None | Some(value: T)

  datatype Result<T, E> = Ok(value: T) | Err(error: E)
}
