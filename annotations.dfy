/** The boundary of the validation engine: the attributes (rules) attached to
    types and properties, the descriptors that the host's reflection facility
    hands out, and the values that flow between the engine and the rules. */
module Annotations {

  datatype Option<+T> = None | Some(value: T)

  /** The identity of a runtime type (the key of the metadata cache). */
  type TypeId = string

  /** What an attribute is, as far as the engine cares: a `RequiredAttribute`
      (or a subclass of it), any other `ValidationAttribute`, or an attribute
      that is not a validation rule at all (display names, converters, ...). */
  datatype AttributeKind =
    | Required
    | Validation(rule: string)
    | Other(name: string)

  /** An attribute instance. It is a class so that `==` on attributes is
      reference identity: two instances configured alike are still two. */
  class Attribute {
    const kind: AttributeKind

    constructor (kind: AttributeKind)
      ensures this.kind == kind
    {
      this.kind := kind;
    }

    /** `attr is ValidationAttribute` */
    predicate IsValidationAttribute() {
      !kind.Other?
    }

    /** `attr is RequiredAttribute` */
    predicate IsRequiredAttribute() {
      kind.Required?
    }
  }

  /** One failure: a message and the members it concerns. A rule that passes
      returns no ValidationResult (`ValidationResult.Success`, i.e. null). */
  datatype ValidationResult = ValidationResult(errorMessage: string, memberNames: seq<string>)

  /** The part of a ValidationContext the engine uses: the object under
      validation and the member currently validated (None for the object). */
  datatype ValidationContext<V> = ValidationContext(instance: V, memberName: Option<string>)

  /** A property as reflection reports it: its name, the attributes on its
      descriptor (which reflection also fills with the attributes of the
      property's declared type), and that declared type. */
  datatype PropertyDescriptor = PropertyDescriptor(name: string, attributes: seq<Attribute>, propertyType: TypeId)

  /** A type as reflection reports it: the attributes on the type itself and
      its properties in descriptor order. */
  datatype TypeDescriptor = TypeDescriptor(attributes: seq<Attribute>, properties: seq<PropertyDescriptor>)
}
