/** Failure-carrying results shared by the contract service model.

    Every error path of the modelled request handlers ends in one `Error`
    value instead of an HTTP response; the transport layer that turns these
    into status codes and JSON envelopes is not part of this model. */
module Outcomes {

  datatype Option<+T> = None | Some(value: T)

  datatype Result<+T> = Success(value: T) | Failure(error: Error)

  /** The distinct ways a modelled operation can fail. */
  datatype Error =
    | InvalidFormat          // upload whose lower-cased filename does not end in ".pdf"
    | TemplateNotFound       // activate with an id no template row carries
    | NoActiveTemplate       // personalize with no active template row
    | MissingSignature       // sign request without a "signature" entry
    | InvalidSignatureData   // signature text without a comma: split(',')[1] has no field
    | PdfNotFound            // sign for a missing row, or a row with empty generated bytes
    | CorruptDocument        // stored bytes that the PDF reader cannot parse
    | EmptyDocument          // a document with no page to merge the overlay onto
}
