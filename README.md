# AutoComponentProperty, modelled in Dafny

AutoComponentProperty is a Roslyn source generator for Unity projects. A field
tagged `[CompoProp(GetFrom.X)]` gets a private, lazily cached property in a
generated `partial` class. On first read the property fills the field by the
`GetComponent*` lookup that `X` (`This`, `Children` or `Parent`) and the field's
array-ness select. This project models one generation pass:

- **Discovery** (`Discovery.SyntaxReceiver`). The syntax receiver records each
  field declaration that carries an attribute whose written name ends in
  `CompoPropAttribute` or `CompoProp`. It records the declaration once, with the
  first such attribute.
- **Collection** (`Generator.Execute`). Every recorded declaration yields one
  `(field, type, from)` descriptor per declared variable.
- **Grouping** (`Grouping.GroupBy`). The descriptors are grouped by containing
  type, with LINQ's first-occurrence order.
- **Synthesis** (`Synthesis.ProcessClass`). Each group becomes one class text: an
  optional namespace header, a class header, one accessor per field, and the
  closers. Each text is added under the hint name `{Name}.Generated.cs`.
- **Naming** (`Naming.PropertyName`). The property name is derived from the
  field name.
- **Flags** (`GetFrom`). The `GetFrom` flags enum and its copy in the emitted
  attribute schema.
- **Cache** (`CachedAccessor.CachedField`). The run-time behaviour of one
  generated accessor, `f is null ? (f = lookup) : f`.

The compiler's semantic facts are supplied as plain records (`Facts`): a
variable's symbol, its type's display string, whether that type is an array
type, and the containing type and namespace. Enum values are `bv32`, because the
C# enum is `int`-backed and any constant is cast into it.

Two failure paths of the source are preconditions of `Execute` rather than
modelled failures:

- **Non-constant argument.** A missing or non-constant first attribute argument
  makes `Arguments[0]` (line 77) or `Enum.ToObject(..., null)` (line 79) throw, and
  the pass fails. `Execute` requires `Resolvable` of every recorded pair.
- **Colliding hint names.** Types with the same simple name, say in different
  namespaces, form separate groups but get the same hint name (line 99). Roslyn's
  `AddSource` compares hint names ignoring case and rejects the second one.
  `Execute` requires `NamesIdentifyOwners`: names equal ignoring case belong to the
  same type. `Generator.SameNameTypesCollide` and `Generator.CaseOnlyNamesCollide`
  show the cases it excludes.

## Model

| member | source | states |
|---|---|---|
| GetFrom.MembersAreDistinctSingleBits | AutoComponentProperty/AutoComponentProperty/GetFrom.cs:5-11 | The three members are pairwise distinct, non-zero, and each has exactly one bit set, as a `[Flags]` enum needs |
| GetFrom.ZeroIsNoMember | AutoComponentProperty/AutoComponentProperty/GetFrom.cs:5-11 | The empty flag set is none of the members |
| GetFrom.UnionOfDistinctMembersIsNoMember | AutoComponentProperty/AutoComponentProperty/GetFrom.cs:5-11 | A union of two different members, or of all three, equals no single member, so the strategy chain sends it to the fallback |
| GetFrom.SchemaAgreesWithEnum | AutoComponentProperty/AutoComponentProperty/AutoComponentPropertyGenerator.cs:42-48 | The enum copy in the emitted schema has the same names, order and values (`1`, `1 << 1`, `1 << 2`) as GetFrom.cs, and these are the model's constants |
| Naming.FirstLowerFrom | AutoComponentProperty/AutoComponentProperty/AutoComponentPropertyGenerator.cs:164-171 | The scan returns the first index at or after `i` holding a lower-case character, with none before it, or reports that there is none |
| Naming.PropertyName | AutoComponentProperty/AutoComponentProperty/AutoComponentPropertyGenerator.cs:160-175 | For the first lower-case index `i`, the name is that character upper-cased followed by everything after it, so its length is the field name's length minus `i`. A name with no lower-case character gives `NoLetterCanUppercase` |
| Naming.PropertyNameStartsUpper | AutoComponentProperty/AutoComponentProperty/AutoComponentPropertyGenerator.cs:160-175 | Every derived name is non-empty and starts with an upper-case letter |
| Naming.PropertyNameNoBraces | AutoComponentProperty/AutoComponentProperty/AutoComponentPropertyGenerator.cs:169 | The derived name adds no brace that the field name lacks |
| Naming.PropertyNameDropsPrefix | AutoComponentProperty/AutoComponentProperty/AutoComponentPropertyGenerator.cs:164-170 | `_myHealth` gives `MyHealth` and `_body` gives `Body`: the characters before the first lower-case one are dropped |
| Naming.PropertyNameCapitalises | AutoComponentProperty/AutoComponentProperty/AutoComponentPropertyGenerator.cs:166-169 | `x` gives `X` and `already` gives `Already` |
| Naming.PropertyNameFallbackExamples | AutoComponentProperty/AutoComponentProperty/AutoComponentPropertyGenerator.cs:174 | `ABC`, the empty name and `_42` all give the placeholder |
| Naming.PropertyNameNotIdempotent | AutoComponentProperty/AutoComponentProperty/AutoComponentPropertyGenerator.cs:164-170 | Applying the derivation to its own result `Body` gives `Ody`, so it is not idempotent |
| Naming.DerivedNameCanEqualFallback | AutoComponentProperty/AutoComponentProperty/AutoComponentPropertyGenerator.cs:169-174 | The field `noLetterCanUppercase` derives exactly the placeholder, so the result alone does not tell the two branches apart |
| Discovery.Flatten | AutoComponentProperty/AutoComponentProperty/AutoComponentPropertyGenerator.cs:188-190 | An attribute is in the flattened list exactly when it is in one of the declaration's attribute lists |
| Discovery.IsMarker | AutoComponentProperty/AutoComponentProperty/AutoComponentPropertyGenerator.cs:193-194 | The name test: the written attribute name ends in `CompoPropAttribute` or in `CompoProp`. Defined by its body; used by `Discovery.FirstMarker` |
| Discovery.FirstMarker | AutoComponentProperty/AutoComponentProperty/AutoComponentPropertyGenerator.cs:190-198 | The result is `None` exactly when no attribute's name ends in either marker suffix; otherwise it is a marker attribute with no marker before it |
| Discovery.Recorded | AutoComponentProperty/AutoComponentProperty/AutoComponentPropertyGenerator.cs:186-198 | What one visit appends: nothing for a node that is not a field declaration or has no marker, otherwise the declaration paired with its first marker. Defined by its body; characterised by `Discovery.RecordedAtMostOnce` |
| Discovery.RecordedAll | AutoComponentProperty/AutoComponentProperty/AutoComponentPropertyGenerator.cs:182-202 | What a sequence of visits appends, in visiting order. Defined by its body; it is the receiver's invariant `Valid` |
| Discovery.RecordedAtMostOnce | AutoComponentProperty/AutoComponentProperty/AutoComponentPropertyGenerator.cs:186-198 | One visit records at most one pair, and it records one exactly when the node is a field declaration with a marker in any of its lists. That pair is the declaration itself with its first marker |
| Discovery.SyntaxReceiver.constructor | AutoComponentProperty/AutoComponentProperty/AutoComponentPropertyGenerator.cs:182 | A new receiver's list is empty and consistent with the empty visit history |
| Discovery.SyntaxReceiver.OnVisitSyntaxNode | AutoComponentProperty/AutoComponentProperty/AutoComponentPropertyGenerator.cs:184-202 | The visit appends exactly what `Recorded(node)` specifies and nothing else. The list stays equal to what all visits so far recorded, in order |
| Grouping.IndexOfKey | AutoComponentProperty/AutoComponentProperty/AutoComponentPropertyGenerator.cs:92 | The lookup finds a group with the key, or reports that no group has it |
| Grouping.Insert | AutoComponentProperty/AutoComponentProperty/AutoComponentPropertyGenerator.cs:92 | One step of the grouping: the descriptor joins its type's group, or opens a new group at the end. Defined by its body; characterised by `Grouping.GroupByMatchesReference` |
| Grouping.GroupBy | AutoComponentProperty/AutoComponentProperty/AutoComponentPropertyGenerator.cs:92 | `GroupBy(field => field.field.ContainingType)`, built element by element. Defined by its body; characterised by `Grouping.GroupByMatchesReference` and the lemmas below it |
| Grouping.KeysSpec | AutoComponentProperty/AutoComponentProperty/AutoComponentPropertyGenerator.cs:92 | The reference keys are pairwise distinct and are exactly the containing types that occur in the input |
| Grouping.KeysOfPrefix | AutoComponentProperty/AutoComponentProperty/AutoComponentPropertyGenerator.cs:92 | The keys of a prefix of the input are a prefix of the keys (first-occurrence order) |
| Grouping.MembersSpec | AutoComponentProperty/AutoComponentProperty/AutoComponentPropertyGenerator.cs:92 | A key's reference members are exactly the input elements with that key, and they are non-empty exactly when the key occurs |
| Grouping.GroupByMatchesReference | AutoComponentProperty/AutoComponentProperty/AutoComponentPropertyGenerator.cs:92 | The incremental `GroupBy` yields, for each key in first-occurrence order, the group of that key's members in input order |
| Grouping.GroupsAreNonEmptyAndDistinct | AutoComponentProperty/AutoComponentProperty/AutoComponentPropertyGenerator.cs:92 | No group is empty and no two groups share a containing type |
| Grouping.GroupsHoldTheirKeys | AutoComponentProperty/AutoComponentProperty/AutoComponentPropertyGenerator.cs:92 | A descriptor is in a group exactly when it is in the input and its containing type is the group's key |
| Grouping.EveryKeyHasAGroup | AutoComponentProperty/AutoComponentProperty/AutoComponentPropertyGenerator.cs:92 | Every input descriptor's containing type has a group |
| Grouping.GroupByKeepsEveryElement | AutoComponentProperty/AutoComponentProperty/AutoComponentPropertyGenerator.cs:92 | The group sizes add up to the input length: nothing is lost or duplicated |
| Synthesis.RowClassName | AutoComponentProperty/AutoComponentProperty/AutoComponentPropertyGenerator.cs:121-125 | A display name ending in `[]` loses exactly that suffix; any other name is kept |
| Synthesis.AppendCall | AutoComponentProperty/AutoComponentProperty/AutoComponentPropertyGenerator.cs:131-144 | The if-chain on `from` and array-ness that appends the lookup call. Defined by its body; characterised by `Synthesis.AppendCallFollowsTable` |
| Synthesis.CallNamesMatchTable | AutoComponentProperty/AutoComponentProperty/AutoComponentPropertyGenerator.cs:131-144 | The six call prefixes and two call endings are the table's names: singular or plural `GetComponent`, then nothing, `InChildren` or `InParent`, then `<`, and its endings `>())` or `>(true))` |
| Synthesis.AppendCallFollowsTable | AutoComponentProperty/AutoComponentProperty/AutoComponentPropertyGenerator.cs:131-144 | For every `from` value and array-ness, the if-chain appends the call of the strategy table. A single member picks the scope and plurality; arrays use the element type; outside `This` the call passes `true`; anything else is `GetComponent<T>()` |
| Synthesis.FallbackIgnoresArrayness | AutoComponentProperty/AutoComponentProperty/AutoComponentPropertyGenerator.cs:143-144 | A value other than a single member gets the scalar self lookup of the full type name, even for arrays |
| Synthesis.ArrayOfChildrenExample | AutoComponentProperty/AutoComponentProperty/AutoComponentPropertyGenerator.cs:139-140 | An array `Foo[]` taken from the children gets `GetComponentsInChildren<Foo>(true))` |
| Synthesis.AppendAccessor | AutoComponentProperty/AutoComponentProperty/AutoComponentPropertyGenerator.cs:118-147 | Appends one field's accessor. Defined by its body; characterised by `Synthesis.AccessorShape` |
| Synthesis.AppendAccessors | AutoComponentProperty/AutoComponentProperty/AutoComponentPropertyGenerator.cs:116-148 | Appends the accessors of all fields in order. Defined by its body; characterised by `Synthesis.AppendAccessorsConcat` and `Synthesis.AppendAccessorsExtends` |
| Synthesis.ClassText | AutoComponentProperty/AutoComponentProperty/AutoComponentPropertyGenerator.cs:109-156 | The text `ProcessClass` returns. Defined by its body; characterised by `Synthesis.ClassTextLayout` and `Synthesis.ClassTextWellNested` |
| Synthesis.ProcessClass | AutoComponentProperty/AutoComponentProperty/AutoComponentPropertyGenerator.cs:107-157 | The buffer built field by field equals `ClassText`: the headers, one accessor per field in input order, then the closers |
| Synthesis.AccessorShape | AutoComponentProperty/AutoComponentProperty/AutoComponentPropertyGenerator.cs:127-147 | One accessor declares a private property of the field's display type under the derived name. It tests the field for null, assigns the table's lookup, and otherwise returns the field |
| Synthesis.AppendAccessorsConcat | AutoComponentProperty/AutoComponentProperty/AutoComponentPropertyGenerator.cs:116-148 | The accessors of `a + b` are `a`'s accessors followed by `b`'s |
| Synthesis.AppendAccessorsExtends | AutoComponentProperty/AutoComponentProperty/AutoComponentPropertyGenerator.cs:116-148 | Appending accessors only extends the buffer |
| Synthesis.ClassTextOpens | AutoComponentProperty/AutoComponentProperty/AutoComponentPropertyGenerator.cs:109-114 | The class text starts with the namespace header (if any) followed by the class header |
| Synthesis.ClassTextCloses | AutoComponentProperty/AutoComponentProperty/AutoComponentPropertyGenerator.cs:150-154 | The class text ends with the class closer, followed by the namespace closer when namespaced |
| Synthesis.ClassTextLayout | AutoComponentProperty/AutoComponentProperty/AutoComponentPropertyGenerator.cs:109-154 | The text starts with `namespace ` exactly when the type is not in the global namespace. It opens with the headers and ends with the matching closers |
| Synthesis.ClassTextWellNested | AutoComponentProperty/AutoComponentProperty/AutoComponentPropertyGenerator.cs:109-154 | When no name carries a brace, the text's braces balance and nest: every `}` closes an earlier `{` and none is left open |
| Synthesis.PlayerExample | AutoComponentProperty/AutoComponentProperty/AutoComponentPropertyGenerator.cs:107-157 | `Body _body` in global `Player`, taken from `This`, generates `public partial class Player` with `Body Body => _body is null ? (_body = GetComponent<Body>()) : _body;` |
| Generator.Execute | AutoComponentProperty/AutoComponentProperty/AutoComponentPropertyGenerator.cs:60-103 | Without a receiver no unit is added. Otherwise the units are `Generate` of the recorded pairs, which are what the receiver's visits recorded: one descriptor per variable, grouped by containing type, one named unit per group |
| Generator.CollectDescriptors | AutoComponentProperty/AutoComponentProperty/AutoComponentPropertyGenerator.cs:67-88 | The nested loops fill the working list with exactly `Descriptors` of the recorded pairs |
| Generator.AddUnits | AutoComponentProperty/AutoComponentProperty/AutoComponentPropertyGenerator.cs:92-103 | The loop adds one unit per group, in group order, holding the text `ProcessClass` builds |
| Generator.Descriptors | AutoComponentProperty/AutoComponentProperty/AutoComponentPropertyGenerator.cs:67-88 | The working list, declaration by declaration. Defined by its body; characterised by `Generator.DescriptorsFromDeclarations` |
| Generator.Generate | AutoComponentProperty/AutoComponentProperty/AutoComponentPropertyGenerator.cs:92-101 | The units of one pass. Defined by its body; characterised by `Generator.GenerateUnits`, `Generator.UnitsOnlyForAnnotatedTypes` and `Generator.HintNamesDistinct` |
| Generator.DescriptorsFromDeclarations | AutoComponentProperty/AutoComponentProperty/AutoComponentPropertyGenerator.cs:67-88 | There is one descriptor per declared variable. Each comes from a recorded declaration's variable with that declaration's `from`, and every such variable has its descriptor |
| Generator.GenerateUnits | AutoComponentProperty/AutoComponentProperty/AutoComponentPropertyGenerator.cs:92-101 | There is one unit per distinct containing type, in first-occurrence order. Unit `i` is named `{Name}.Generated.cs` and holds the class text of exactly that type's descriptors |
| Generator.GroupsFromDeclarations | AutoComponentProperty/AutoComponentProperty/AutoComponentPropertyGenerator.cs:92 | Every group's type declares at least one recorded variable |
| Generator.UnitsOnlyForAnnotatedTypes | AutoComponentProperty/AutoComponentProperty/AutoComponentPropertyGenerator.cs:92-101 | Unit `i` is the unit of group `i`, whose type declares a recorded variable: a type without annotated fields gets no unit |
| Generator.HintNameDeterminesName | AutoComponentProperty/AutoComponentProperty/AutoComponentPropertyGenerator.cs:99 | Two hint names are equal exactly when the simple names are, and equal ignoring case exactly when the simple names are equal ignoring case |
| Generator.NamesDiffer | AutoComponentProperty/AutoComponentProperty/AutoComponentPropertyGenerator.cs:92 | Under the same-name precondition, two different types that declare recorded variables have simple names that differ ignoring case |
| Generator.DistinctOwnersDistinctHintNames | AutoComponentProperty/AutoComponentProperty/AutoComponentPropertyGenerator.cs:97-101 | Groups with distinct keys, all declaring recorded variables, get hint names that differ ignoring case under the same-name precondition |
| Generator.HintNamesDistinct | AutoComponentProperty/AutoComponentProperty/AutoComponentPropertyGenerator.cs:97-101 | Under the same-name precondition no two units have hint names equal ignoring case, so `AddSource` rejects none of them |
| Generator.SameNameTypesCollide | AutoComponentProperty/AutoComponentProperty/AutoComponentPropertyGenerator.cs:92-101 | Two `Enemy` types in different namespaces form two groups whose units get the same hint name |
| Generator.CaseOnlyNamesCollide | AutoComponentProperty/AutoComponentProperty/AutoComponentPropertyGenerator.cs:97-101 | `Enemy` and `enemy` get hint names that differ as strings but are equal ignoring case |
| CachedAccessor.CachedField.constructor | AutoComponentProperty/AutoComponentProperty/AutoComponentPropertyGenerator.cs:127-129 | A fresh backing field is null and no lookup has run |
| CachedAccessor.CachedField.Get | AutoComponentProperty/AutoComponentProperty/AutoComponentPropertyGenerator.cs:127-147 | A cached value is returned without a lookup. Otherwise the lookup runs once and its result is stored and returned; a null result leaves the cache empty |
| CachedAccessor.ReadTwice | AutoComponentProperty/AutoComponentProperty/AutoComponentPropertyGenerator.cs:127-147 | After a read that found a component, the next read returns it without a lookup. After a read that found nothing, the next read looks up again |

## Left out

- The generator's registration (`Initialize`) and the emission of the attribute schema text (`SetDefaultAttribute`) are left out: they are host plumbing. Only the enum values in that text are cross-checked (`GetFrom.SchemaAgreesWithEnum`).
- The semantic model calls (`GetSemanticModel`, `GetDeclaredSymbol`, `GetConstantValue`, `ContainingType`, `ToDisplayString`) are supplied as the records in `Facts`. The `as IFieldSymbol` cast is taken to succeed.
- The order in which the compiler shows syntax nodes to the receiver is the host's choice. The receiver is specified for any sequence of visits.
- Generator.Execute: a missing or non-constant first attribute argument makes the source throw. It is a precondition (`Resolvable`) rather than a modelled failure.
- Generator.Execute: two units whose hint names are equal ignoring case make `AddSource` throw. This is a precondition (`NamesIdentifyOwners`), and `Generator.SameNameTypesCollide` and `Generator.CaseOnlyNamesCollide` show the cases it excludes.
- Generator.Execute: `OrdinalIgnoreCase` is modelled on the ASCII letters only (`Strings.FoldCase`). Names differing only in other Unicode letters' case are treated as different, so the precondition admits collisions among them.
- Discovery.SyntaxReceiver.OnVisitSyntaxNode: the attribute-name test `EndsWith` is modelled as an ordinal comparison. The source's `string.EndsWith(string)` compares by the current culture, which ignores some characters (a soft hyphen after `CompoProp`, say), so such names are recorded by the source but not by the model.
- Synthesis.RowClassName: the `EndsWith("[]")` test is likewise modelled as ordinal rather than culture-sensitive.
- `AddSource`'s `SourceText.From(..., Encoding.UTF8)` is not modelled: units hold the text as a string, with no encoding.
- Naming.PropertyName: `char.IsLower` and `char.ToUpper` are modelled on the ASCII letters only. Other Unicode lower-case letters count as not lower-case, and culture-specific upper-casing is not modelled.
- Nested types are not modelled: the source emits only the innermost type's name and namespace, and the model does the same.
- Which component Unity's `GetComponent*` calls return is not modelled. `CachedAccessor.CachedField.Get` is given the lookup's result as a parameter.
- The generated cache is not thread-safe, and concurrent reads are not modelled.
