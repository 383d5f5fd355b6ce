/**
 Names and blanks of the text formats, letter by letter (Prometheus data model, section "Metric
 names and labels").
 */
module Names {
  import opened Basics

  predicate Letter(b: byte) {
    'a' as int <= b <= 'z' as int || 'A' as int <= b <= 'Z' as int
  }

  predicate Digit(b: byte) {
    '0' as int <= b <= '9' as int
  }

  /** A letter, digit or underscore. */
  predicate NameByte(b: byte) {
    Letter(b) || Digit(b) || b == '_' as int
  }

  /** `[a-zA-Z_][a-zA-Z0-9_]*` */
  predicate LabelName(name: Text) {
    && name != [] && !Digit(name[0])
    && forall i | 0 <= i < |name| :: NameByte(name[i])
  }

  /** `[a-zA-Z_:][a-zA-Z0-9_:]*` */
  predicate MetricName(name: Text) {
    && name != [] && !Digit(name[0])
    && forall i | 0 <= i < |name| :: NameByte(name[i]) || name[i] == ':' as int
  }

  /** Spaces and tabs only. */
  predicate Blank(text: Text) {
    forall i | 0 <= i < |text| :: text[i] == ' ' as int || text[i] == '\t' as int
  }

  /** The bytes of an ASCII string. */
  function Bytes(s: string): (text: Text)
    requires forall i | 0 <= i < |s| :: s[i] as int < 128
    ensures |text| == |s|
  {
    seq(|s|, i requires 0 <= i < |s| => s[i] as int)
  }

  const NAME_LABEL: Text := Bytes("__name__")
}
