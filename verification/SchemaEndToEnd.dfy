// From a generated schema to the parameters of a tool
// (crates/tool-contract/src/schema.rs:24-46): clean up, then validate.
module SchemaEndToEnd {
  import opened Wrappers
  import opened Json
  import opened SchemaRules
  import opened SchemaValidator
  import opened SchemaCleanup
  import opened SchemaMeaning

  /** What comes out is acceptable and accepts the same instances as what was generated. */
  method SchemaFor(generated: Json, serializedBytes: Json -> nat) returns (r: Option<Json>)
    ensures r.Some? <==>
            && serializedBytes(Cleaned(generated)) <= MAX_SCHEMA_BYTES && Acceptable(Cleaned(generated), 0, true)
            && Count(Cleaned(generated), Nodes) <= MAX_SCHEMA_NODES
            && Count(Cleaned(generated), Properties) <= MAX_SCHEMA_PROPERTIES
    ensures r.Some? ==> r.value == Cleaned(generated)
    ensures r.Some? ==> forall matches :: Generated(generated, matches) ==> Equivalent(r.value, generated, matches)
  {
    var cleaned := RemoveGenerationMetadata(generated);
    var ok := ValidateToolSchema(cleaned, serializedBytes(cleaned));
    forall matches | Generated(generated, matches) ensures Equivalent(cleaned, generated, matches) {
      CleaningKeepsMeaning(generated, matches);
    }
    r := if ok then Some(cleaned) else None;
  }
}
