/**
 * The semantic facts the generator asks the compiler for, supplied as plain
 * records: what `GetDeclaredSymbol`, `ContainingType`, `ContainingNamespace`,
 * `ToDisplayString` and `is IArrayTypeSymbol` would answer.
 */
module Facts {
  import opened Wrappers
  import GetFrom

  /**
   * A type that declares annotated fields. `id` is its symbol identity; `ns` is
   * the display string of its namespace, `None` for the global namespace.
   */
  datatype Owner = Owner(id: nat, name: string, ns: Option<string>)

  /**
   * One declared variable of a field declaration: its name, the display string
   * of its type, whether that type is an array type, and its containing type.
   */
  datatype FieldSymbol = FieldSymbol(name: string, typeName: string, isArray: bool, owner: Owner)

  /** One `(field, sourceType, from)` tuple of the generator's working list. */
  datatype Descriptor = Descriptor(field: FieldSymbol, from: GetFrom.Flags)
}
