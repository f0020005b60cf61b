/** The parts of Roslyn's syntax trees and semantic model that the generators look at,
    as plain values. Symbol resolution is a pair of functions supplied by the caller. */
module Syntax {
  import opened Wrappers

  /** A using directive: its text as written and the name it imports. */
  datatype UsingDirective = UsingDirective(text: string, name: string)

  /** A source file: its path and all its using directives, in document order. */
  datatype SyntaxTree = SyntaxTree(filePath: string, usings: seq<UsingDirective>)

  /** An attribute: its name as written and its argument list, `None` when the attribute is
      written without parentheses. Each argument is kept as its source text. */
  datatype Attribute = Attribute(name: string, argumentList: Option<seq<string>>)

  /** A field declaration: its attribute lists, its declared type as written and the names
      of the variables it declares (`int a, b;` declares two). */
  datatype FieldDecl = FieldDecl(attributeLists: seq<seq<Attribute>>, typeText: string, variables: seq<string>)

  datatype Modifier = PartialKeyword | StaticKeyword | OtherModifier(text: string)

  /** The syntax node a class declaration sits in: a (block or file-scoped) namespace
      declaration, or anything else (the compilation unit, an enclosing type). */
  datatype Parent = NamespaceDeclaration(name: string) | OtherParent

  /** A type written in a base list. */
  datatype TypeRef = TypeRef(text: string)

  /** A class declaration; `fields` are its field-declaration members in declaration order,
      `baseTypes` the entries of its base list (empty when it has none). */
  datatype ClassDecl = ClassDecl(
    identifier: string,
    parent: Parent,
    modifiers: seq<Modifier>,
    tree: SyntaxTree,
    fields: seq<FieldDecl>,
    baseTypes: seq<TypeRef>)

  /** A syntax node as the syntax receiver or `SyntaxReference.GetSyntax()` hands it over. */
  datatype SyntaxNode = ClassDeclaration(decl: ClassDecl) | OtherNode

  datatype SyntaxReference = SyntaxReference(tree: SyntaxTree, node: SyntaxNode)

  /** What `GetSymbolInfo(...).Symbol as INamedTypeSymbol` yields for a base type: no named
      type (no symbol, or a symbol of another kind), or a named type with the syntax
      references of its declarations (none for a type read from metadata). */
  datatype BaseSymbol = NotNamedType | NamedType(declaringSyntaxReferences: seq<SyntaxReference>)

  /** A semantic model is identified by the syntax tree it was obtained for. */
  type SemanticModel = SyntaxTree

  /** The compilation's symbol resolution: base types to symbols, and using directives to
      the fully qualified name of the namespace they denote (`None` when the name does not
      bind to a namespace symbol). */
  datatype Compilation = Compilation(
    symbolOf: (SemanticModel, TypeRef) -> BaseSymbol,
    namespaceOf: (SemanticModel, UsingDirective) -> Option<string>)
}
