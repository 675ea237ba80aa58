/** The part of an access token's payload the handlers read. */
module Token {

  /** The verified token payload; its id and issue/expiry times are not modelled. */
  datatype Payload = Payload(username: string)

  /** The two errors `VerifyToken` reports. */
  datatype TokenError = ErrInvalidToken | ErrExpiredToken
}
