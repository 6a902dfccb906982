/** Socket configuration. */
module Config {
  import opened Base
  import opened Crypto

  datatype SocketConfig = SocketConfig(
    maxPayloadSize: nat,
    msgDropPriority: Priority,
    maxMsgAgeSecs: nat,
    encCtx: EncryptContext,
    decCtx: DecryptContext)
}
