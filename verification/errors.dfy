/**
  The failures the v2 client reports. The client's own checks fail with
  short messages ("missing header", "multiple headers", "unexpected status",
  "unsupported key"); the rest are errors of the libraries it calls, each
  given a constructor of its own here.
 */
module ClientErrors {

  datatype Error =
    /** `hyper::Uri::from_str` refused the URL */
    | InvalidUri
    /** the connection failed before a response arrived */
    | Transport
    /** the probe response has no `www-authenticate` header */
    | MissingHeader
    /** the `www-authenticate` header arrived as more than one line */
    | MultipleHeaders
    /** the probe answered with a status other than 200 or 401 */
    | UnexpectedStatus
    /** `String::from_utf8` refused the challenge bytes */
    | NotUtf8
    /** a challenge item is not `realm=…`, `service=…` or `scope…` */
    | UnsupportedKey
    /** `hyper::Error::Status`: a token or catalog response other than 200,
        or a catalog body that does not deserialise */
    | BadStatus
    /** the token response body does not deserialise as `TokenAuth` */
    | Json
}
