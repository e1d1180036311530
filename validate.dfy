/** Input validators (src/utils/validate.ts). The WHATWG `URL` parser and the
    `Date` constructor are foreign code: they enter the model as functions
    passed in by the caller. */
module Validate {
  import opened Wrappers

  /** What `new URL(s)` yields: `None` when the constructor throws, otherwise the
      parsed `protocol` (lower-cased scheme followed by ':'). */
  type UrlParser = string -> Option<string>

  /** What `new Date(s).getTime()` yields: `None` for NaN (an invalid date),
      otherwise milliseconds since the epoch. */
  type DateParser = string -> Option<int>

  /** A JSON body field or query value: absent, explicit `null`, or a string. */
  datatype Field = Missing | Null | Text(s: string)

  /** `String(f)`: the text JavaScript coerces a field to, as `new URL(f)` sees it. */
  function Coerce(f: Field): string {
    match f
    case Missing => "undefined"
    case Null => "null"
    case Text(s) => s
  }

  /** JavaScript truthiness of a field: a non-empty string. */
  predicate Truthy(f: Field) {
    f.Text? && f.s != ""
  }

  predicate IsAsciiAlnum(c: char) {
    ('A' <= c <= 'Z') || ('a' <= c <= 'z') || ('0' <= c <= '9')
  }

  /** `isValidHttpUrl`: the URL parses and its scheme is http or https. */
  predicate IsValidHttpUrl(parse: UrlParser, url: string) {
    match parse(url)
    case None => false
    case Some(protocol) => protocol == "http:" || protocol == "https:"
  }

  /** `isCodeValid`: the whole string matches /^[A-Za-z0-9]{1,32}$/. */
  predicate IsCodeValid(code: string) {
    1 <= |code| <= 32 && forall i | 0 <= i < |code| :: IsAsciiAlnum(code[i])
  }

  /** `parseOptionalDate`: undefined, null and '' give null; anything else is
      parsed, and an invalid date also gives null. */
  function ParseOptionalDate(input: Field, parse: DateParser): (d: Option<int>)
    ensures input == Missing || input == Null || input == Text("") ==> d == None
    ensures input.Text? && input.s != "" ==> d == parse(input.s)
  {
    match input
    case Missing => None
    case Null => None
    case Text(s) => if s == "" then None else parse(s)
  }

  /** The rejection rule both POST and PUT apply: a date was supplied (not
      undefined, null or '') and yet `parseOptionalDate` returned null. */
  predicate IsInvalidDate(input: Field, parse: DateParser) {
    ParseOptionalDate(input, parse) == None && input != Missing && input != Null && input != Text("")
  }

  lemma InvalidDateMeansUnparseable(input: Field, parse: DateParser)
    ensures IsInvalidDate(input, parse) <==> (input.Text? && input.s != "" && parse(input.s) == None)
  {
  }

  /** A URL that the parser rejects is never valid, whatever its text; a
      parsed URL is valid exactly for the two web schemes. */
  lemma HttpUrlRule(parse: UrlParser, url: string)
    ensures parse(url) == None ==> !IsValidHttpUrl(parse, url)
    ensures IsValidHttpUrl(parse, url) <==> parse(url) == Some("http:") || parse(url) == Some("https:")
  {
  }

  /** The examples the code validator is known to decide. */
  lemma CodeValidExamples()
    ensures IsCodeValid("Abc123")
    ensures !IsCodeValid("bad!")
    ensures !IsCodeValid("")
    ensures !IsCodeValid(seq(33, _ => 'a'))
  {
    assert "bad!"[3] == '!';
  }
}
