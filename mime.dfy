/** A parsed email message as the triage code sees it. Parsing itself
    (RFC 5322 headers, MIME structure, transfer decoding) is done by a
    library and is not modelled; a message is what its accessors return. */
module Mime {
  import opened Wrappers

  /** One node visited by `msg.walk()`. */
  datatype Part = Part(
    contentType: string,          // part.get_content_type()
    content: string,              // part.get_content(), for text parts
    disposition: Option<string>,  // part.get("Content-Disposition")
    filename: Option<string>,     // part.get_filename()
    payloadSize: Option<nat>      // len(part.get_payload(decode=True)), None when that is None
  )

  datatype Message = Message(
    subject: Option<string>,  // msg['subject']
    sender: Option<string>,   // msg['from']
    isMultipart: bool,        // msg.is_multipart()
    content: string,          // msg.get_content() of a single-part message, as text
    walk: seq<Part>           // msg.walk(), in the order it yields parts
  )

  /** Python truthiness of an optional header value: present and non-empty. */
  predicate Truthy(o: Option<string>) {
    o.Some? && o.value != ""
  }
}
