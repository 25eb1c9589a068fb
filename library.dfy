/** The Node.js library functions, clocks and random sources the core
    calls. Their behaviour is not modelled: each one is an arbitrary
    function supplied by the environment. */
module Library {
  import opened Wrappers

  datatype Host = Host(
    /** `encodeURIComponent`. */
    encode: string -> string,
    /** `decodeURIComponent`; None where it throws a URIError. */
    decode: string -> Option<string>,
    /** `Date.prototype.toUTCString` of a time in milliseconds. */
    utc: nat -> string,
    /** The hex MD5 digest of a string (`Crypto.createHash('md5')`). */
    md5: string -> string,
    /** The rendering of `Date.now()` followed by `Math.random()` on the
        given attempt of session-id generation. */
    entropy: nat -> string,
    /** `QueryString.parse`. */
    formParse: string -> map<string, string>,
    /** The parts `CgiParser.multiPart` splits a multipart body into. */
    multiPart: string -> seq<string>,
    /** `Path.dirname`. */
    dirname: string -> string,
    /** `Path.resolve` of a path against a directory. */
    resolve: (string, string) -> string,
    /** `Path.extname`. */
    extname: string -> string
  )
}
