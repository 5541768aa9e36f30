/** The bytes of the messages that the HTTP writers produce. */
module HttpMessages {
  import opened Bytes
  import opened Decimals

  datatype Field = Field(name: seq<byte>, value: seq<byte>)

  /** " HTTP/1.1" and CR LF */
  const HTTP_11_LINE: seq<byte> := [32, 72, 84, 84, 80, 47, 49, 46, 49, 13, 10]
  /** "HTTP/1.1 " */
  const HTTP_11_: seq<byte> := [72, 84, 84, 80, 47, 49, 46, 49, 32]
  /** "Host" */
  const HOST: seq<byte> := [72, 111, 115, 116]
  /** "Content-Type" */
  const CONTENT_TYPE: seq<byte> := [67, 111, 110, 116, 101, 110, 116, 45, 84, 121, 112, 101]
  /** "Content-Length" */
  const CONTENT_LENGTH: seq<byte> := [67, 111, 110, 116, 101, 110, 116, 45, 76, 101, 110, 103, 116, 104]
  /** "Server" */
  const SERVER: seq<byte> := [83, 101, 114, 118, 101, 114]
  /** "reactor" */
  const REACTOR: seq<byte> := [114, 101, 97, 99, 116, 111, 114]
  /** "Date" */
  const DATE: seq<byte> := [68, 97, 116, 101]

  const DATE_SIZE: nat := 29

  /** The date string that the server keeps up to date. */
  type Date = d: seq<byte> | |d| == DATE_SIZE witness seq(DATE_SIZE, _ => SP)

  function FieldBytes(f: Field): seq<byte> {
    f.name + [COLON, SP] + f.value + CRLF
  }

  function FieldsBytes(fs: seq<Field>): seq<byte> {
    if fs == [] then [] else FieldBytes(fs[0]) + FieldsBytes(fs[1..])
  }

  /** The size of a body passes through a 32-bit parameter on its way to the printed length. */
  function Length32(body: seq<byte>): nat {
    |body| % U32
  }

  function RequestFields(host: seq<byte>, type_: seq<byte>, body: seq<byte>): seq<Field> {
    [Field(HOST, host)] +
    if body == [] then []
    else [Field(CONTENT_TYPE, type_), Field(CONTENT_LENGTH, Decimal(Length32(body)))]
  }

  function ResponseFields(date: seq<byte>, type_: seq<byte>, body: seq<byte>): seq<Field> {
    [Field(SERVER, REACTOR), Field(DATE, date)] +
    (if type_ == [] then [] else [Field(CONTENT_TYPE, type_)]) +
    [Field(CONTENT_LENGTH, Decimal(Length32(body)))]
  }

  function RequestBytes(method_: seq<byte>, target: seq<byte>, host: seq<byte>, type_: seq<byte>,
                        body: seq<byte>): seq<byte> {
    method_ + [SP] + target + HTTP_11_LINE + FieldsBytes(RequestFields(host, type_, body)) + CRLF + body
  }

  function ResponseBytes(status: seq<byte>, date: seq<byte>, type_: seq<byte>, body: seq<byte>): seq<byte> {
    HTTP_11_ + status + CRLF + FieldsBytes(ResponseFields(date, type_, body)) + CRLF + body
  }
}
