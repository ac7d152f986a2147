/**
 * The decoded message payloads ("SOFA" wrappers) and the quick-reply controls they carry.
 * Only the parts the chat screen inspects are modelled.
 */
module Sofa {

  /** `SofaMessage.Button.type`: a leaf button or a group that opens a sub-menu. */
  datatype ControlKind = ButtonControl | GroupControl

  /** `SofaMessage.Button` (`title` is its `label`); equality is structural. */
  datatype Button = Button(title: string, value: string, kind: ControlKind, subcontrols: seq<Button>)

  /** A message's decoded `sofaWrapper`, by class. Wei amounts are natural numbers. */
  datatype SofaWrapper =
    | SofaMessage(text: string, buttons: seq<Button>)
    | SofaPaymentRequest(value: nat)
    | SofaPayment(value: nat)
    | SofaCommand(body: string)
    | SofaOther(body: string)

  /** `SofaType(sofa:)`, the classification of a raw message body by its prefix. */
  datatype SofaType =
    | NoneType | MessageType | CommandType | InitialRequestType
    | InitialResponseType | PaymentRequestType | PaymentType

  /** The two wrappers whose fiat and ether display strings are computed. */
  predicate IsPayment(w: SofaWrapper) {
    w.SofaPaymentRequest? || w.SofaPayment?
  }

  /** The wei amount of a payment-shaped wrapper. */
  function PaymentValue(w: SofaWrapper): nat
    requires IsPayment(w)
  {
    w.value
  }
}
