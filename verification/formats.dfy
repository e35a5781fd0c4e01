/** The data formats the library knows, and the value every parser returns. */
module Formats {

  datatype Format = Json | Xml | Csv | Yaml | Toml
  {
    /** The lower-case name used as the detector's answer and as the key of
        the fallback parser's error record. */
    function Name(): (n: string)
      ensures |n| >= 3
    {
      match this
      case Json => "json"
      case Xml => "xml"
      case Csv => "csv"
      case Yaml => "yaml"
      case Toml => "toml"
    }
  }

  /** A parsed document: the format it came from and the format-native payload.
      The payload stays opaque; only its origin matters to the orchestrator. */
  datatype Structured<P> = Structured(origin: Format, payload: P)
}
