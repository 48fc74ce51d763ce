/** The part of an HTTP servlet request that the token repository touches. */
module Requests {
  import opened Wrappers

  class Request {
    /** Request headers, fixed for the life of the request. */
    const headers: map<string, string>
    /** The request's attribute bag; only string values are modelled. */
    var attributes: map<string, string>

    constructor (headers: map<string, string>)
      ensures this.headers == headers && attributes == map[]
    {
      this.headers := headers;
      attributes := map[];
    }

    /** `getHeader(name)`: the header's value, or null when it is absent. */
    function GetHeader(name: string): (v: Option<string>)
      ensures v.None? <==> name !in headers
      ensures v.Some? ==> v.value == headers[name]
    {
      if name in headers then Some(headers[name]) else None
    }

    /** `setAttribute(name, value)`: a null value removes the attribute, as servlets do. */
    method SetAttribute(name: string, value: Option<string>)
      modifies this
      ensures value.Some? ==> attributes == old(attributes)[name := value.value]
      ensures value.None? ==> attributes == old(attributes) - {name}
    {
      if value.Some? {
        attributes := attributes[name := value.value];
      } else {
        attributes := attributes - {name};
      }
    }
  }
}
