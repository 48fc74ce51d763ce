/**
 * The persisted entity `Token` (table `token`): a mutable bean with three
 * fields whose accessors Lombok generates.
 */
module Tokens {
  import opened Wrappers

  /** The value held by one row of the `token` table at some moment. */
  datatype Row = Row(id: int, identifier: Option<string>, token: Option<string>)

  class Token {
    /** Primary key. Java's primitive `int` starts at 0; the store assigns it on insert. */
    var id: int
    /** The client identifier taken from the `x_id` header; null is a legal value. */
    var identifier: Option<string>
    /** The current anti-forgery value. */
    var token: Option<string>

    /** `new Token()`: every field at its Java default. */
    constructor ()
      ensures AsRow() == Row(0, None, None)
    {
      id := 0;
      identifier := None;
      token := None;
    }

    /** The row this object currently holds. */
    function AsRow(): Row
      reads this
    {
      Row(id, identifier, token)
    }

    /** Lombok's `getToken`: the value the entity's row holds. */
    function GetToken(): (v: Option<string>)
      reads this
      ensures v == AsRow().token
    {
      token
    }

    /** Lombok's `getIdentifier`: the identifier the entity's row holds. */
    function GetIdentifier(): (v: Option<string>)
      reads this
      ensures v == AsRow().identifier
    {
      identifier
    }

    method SetToken(v: Option<string>)
      modifies this
      ensures GetToken() == v
      ensures AsRow() == old(AsRow()).(token := v)
    {
      token := v;
    }

    method SetIdentifier(v: Option<string>)
      modifies this
      ensures GetIdentifier() == v
      ensures AsRow() == old(AsRow()).(identifier := v)
    {
      identifier := v;
    }
  }
}
