/** What the model needs of a message parsed by Python's `email` package. The
    parser itself (`BytesParser`, `get_body`, `get_content`, `is_multipart`,
    `get_payload`) is not modelled: a parsed message is given as the answers
    those calls give. */
module Mime {
  import opened Wrappers

  /** The value `get_content()` returns: text for parts of a text type, bytes otherwise. */
  datatype Content = TextContent(text: string) | BinaryContent(bytes: seq<bv8>)

  /** One part of a multipart message: its `Content-Disposition` header, if
      any, and its decoded content. */
  datatype Part = Part(disposition: Option<string>, content: Content)

  /** A parsed message: its header fields, the content of the part that
      `get_body(preferencelist=('plain',))` finds (`None` when it finds none),
      whether it is multipart, and its immediate parts. */
  datatype Message = Message(
    header: map<string, string>,
    plainBody: Option<string>,
    multipart: bool,
    payload: seq<Part>)
  {
    /** `message[name]`: the field's value, or `None` when it is absent. */
    function Get(name: string): Option<string> {
      if name in header then Some(header[name]) else None
    }
  }
}
