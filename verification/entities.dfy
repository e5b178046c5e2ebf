/**
 * The records the service works with. They come from the Qabel core
 * library; only the fields the service reads are kept.
 */
module Entities {

  /** A key identifier, derived from a public key. */
  type KeyId = string

  /** A drop endpoint: an HTTP location blobs are deposited at and pulled from. */
  datatype DropUrl = DropUrl(uri: string)

  /** A local identity: a key pair (represented by its key identifier), an alias and the drops it monitors. */
  datatype Identity = Identity(keyId: KeyId, alias: string, dropUrls: seq<DropUrl>)

  /** A remote correspondent known to one local identity. */
  datatype Contact = Contact(keyId: KeyId, alias: string, dropUrls: seq<DropUrl>)

  /** A decoded message: the key identifier its sender claims, its type and its payload. */
  datatype DropMessage = DropMessage(senderKeyId: KeyId, payloadType: string, payload: string)

  /**
   * A decoded message together with the contact `registerSender` bound it
   * to. The service binds the sender by mutating the message; here the
   * binding is a separate value.
   */
  datatype AuthenticatedMessage = AuthenticatedMessage(message: DropMessage, sender: Contact)

}
