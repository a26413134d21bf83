/** The exact text that is printed: a direct definition of both layouts, which
    the printer refines, and from it the text of the records. */
module JsonText {
  import opened Common
  import opened Types
  import opened Json
  import opened JsonGrammar
  import opened Records
  import Decimal
  import Hex
  import JsonLaws
  import RecordLayout
  import Utf8

  // ---------------------------------------------------------------- layouts

  function Break(layout: Layout, level: nat): string {
    if layout == Compact then "" else "\n" + seq(2 * level, i => ' ')
  }

  function Escapes(s: string): string {
    if s == "" then "" else EscapeChar(s[0]) + Escapes(s[1..])
  }

  function Quoted(s: string): string {
    "\"" + (Escapes(s) + "\"")
  }

  function Text(v: Json, layout: Layout, level: nat): string
    decreases v, 1
  {
    match v
    case Null => "null"
    case Bool(b) => if b then "true" else "false"
    case Number(n) => Decimal.Print(n)
    case OtherNumber(literal) => literal
    case String(s) => Quoted(s)
    case Array(items) =>
      if items == [] then "[]"
      else "[" + (Break(layout, level + 1) + (Items(items, layout, level + 1) + (Break(layout, level) + "]")))
    case Object(fields) =>
      if fields == [] then "{}"
      else "{" + (Break(layout, level + 1) + (Members(fields, layout, level + 1) + (Break(layout, level) + "}")))
  }

  function Items(items: seq<Json>, layout: Layout, level: nat): string
    requires items != []
    decreases items, 0
  {
    if |items| == 1 then Text(items[0], layout, level)
    else Text(items[0], layout, level) + ("," + (Break(layout, level) + Items(items[1..], layout, level)))
  }

  function Member(field: Field, layout: Layout, level: nat): string
    decreases field, 0
  {
    Quoted(field.key) + ((if layout == Compact then ":" else ": ") + Text(field.value, layout, level))
  }

  function Members(fields: seq<Field>, layout: Layout, level: nat): string
    requires fields != []
    decreases fields, 0
  {
    if |fields| == 1 then Member(fields[0], layout, level)
    else Member(fields[0], layout, level) + ("," + (Break(layout, level) + Members(fields[1..], layout, level)))
  }

  // ------------------------------------------------------------- refinement

  lemma NewlineIsBreak(layout: Layout, level: nat, rest: string)
    ensures Newline(layout, level, rest) == Break(layout, level) + rest
  {
    JsonLaws.NewlineIsSpace(layout, level, rest);
  }

  lemma {:induction false} PrintStringIsText(s: string, rest: string)
    ensures PrintString(s, rest) == Escapes(s) + ("\"" + rest)
  {
    if s != "" {
      PrintStringIsText(s[1..], rest);
      Assoc(EscapeChar(s[0]), Escapes(s[1..]), "\"" + rest);
    }
  }

  lemma Assoc(a: string, b: string, c: string)
    ensures a + (b + c) == (a + b) + c
  {
  }

  lemma QuotedIsPrinted(s: string, rest: string)
    ensures "\"" + PrintString(s, rest) == Quoted(s) + rest
  {
    PrintStringIsText(s, rest);
    Assoc(Escapes(s), "\"", rest);
    Assoc("\"", Escapes(s) + "\"", rest);
  }

  lemma AssocFour(a: string, b: string, c: string, d: string)
    ensures a + (b + (c + d)) == (a + (b + c)) + d
  {
    Assoc(b, c, d);
    Assoc(a, b + c, d);
  }

  lemma AssocFive(a: string, b: string, c: string, d: string, e: string)
    ensures a + (b + (c + (d + e))) == (a + (b + (c + d))) + e
  {
    AssocFour(b, c, d, e);
    Assoc(a, b + (c + d), e);
  }

  lemma AssocSix(a: string, b: string, c: string, d: string, e: string, f: string)
    ensures a + (b + (c + (d + (e + f)))) == (a + (b + (c + (d + e)))) + f
  {
    AssocFive(b, c, d, e, f);
    Assoc(a, b + (c + (d + e)), f);
  }

  /** The printer writes the text of a value in front of what follows. */
  lemma {:induction false} PrintIsText(v: Json, layout: Layout, level: nat, rest: string)
    ensures PrintTo(v, layout, level, rest) == Text(v, layout, level) + rest
    decreases v, 1
  {
    match v {
      case Null =>
      case Bool(b) =>
      case Number(n) => Decimal.PrintToSplits(n, rest);
      case OtherNumber(literal) =>
      case String(s) => QuotedIsPrinted(s, rest);
      case Array(items) =>
        if items != [] {
          PrintItemsIsText(items, layout, level, rest);
          PrintArrayIsText(items, layout, level, rest);
        }
      case Object(fields) =>
        if fields != [] {
          PrintFieldsIsText(fields, layout, level, rest);
          PrintObjectIsText(fields, layout, level, rest);
        }
    }
  }

  lemma PrintArrayIsText(items: seq<Json>, layout: Layout, level: nat, rest: string)
    requires items != []
    requires PrintItems(items, layout, level, rest)
             == Items(items, layout, level + 1) + (Break(layout, level) + ("]" + rest))
    ensures PrintTo(Array(items), layout, level, rest) == Text(Array(items), layout, level) + rest
  {
    NewlineIsBreak(layout, level + 1, PrintItems(items, layout, level, rest));
    AssocSix("[", Break(layout, level + 1), Items(items, layout, level + 1), Break(layout, level), "]", rest);
  }

  lemma PrintObjectIsText(fields: seq<Field>, layout: Layout, level: nat, rest: string)
    requires fields != []
    requires PrintFields(fields, layout, level, rest)
             == Members(fields, layout, level + 1) + (Break(layout, level) + ("}" + rest))
    ensures PrintTo(Object(fields), layout, level, rest) == Text(Object(fields), layout, level) + rest
  {
    NewlineIsBreak(layout, level + 1, PrintFields(fields, layout, level, rest));
    AssocSix("{", Break(layout, level + 1), Members(fields, layout, level + 1), Break(layout, level), "}", rest);
  }

  lemma {:induction false} PrintItemsIsText(items: seq<Json>, layout: Layout, level: nat, rest: string)
    requires items != []
    ensures PrintItems(items, layout, level, rest)
            == Items(items, layout, level + 1) + (Break(layout, level) + ("]" + rest))
    decreases items, 0
  {
    var tail := Break(layout, level) + ("]" + rest);
    PrintIsText(items[0], layout, level + 1, PrintMoreItems(items[1..], layout, level, rest));
    if |items| == 1 {
      NewlineIsBreak(layout, level, "]" + rest);
    } else {
      PrintItemsIsText(items[1..], layout, level, rest);
      NewlineIsBreak(layout, level + 1, PrintItems(items[1..], layout, level, rest));
      AssocFive(
        Text(items[0], layout, level + 1), ",", Break(layout, level + 1),
        Items(items[1..], layout, level + 1), tail);
    }
  }

  lemma {:induction false} PrintFieldsIsText(fields: seq<Field>, layout: Layout, level: nat, rest: string)
    requires fields != []
    ensures PrintFields(fields, layout, level, rest)
            == Members(fields, layout, level + 1) + (Break(layout, level) + ("}" + rest))
    decreases fields, 0
  {
    var tail := Break(layout, level) + ("}" + rest);
    PrintFieldIsText(fields[0], layout, level + 1, PrintMoreFields(fields[1..], layout, level, rest));
    if |fields| == 1 {
      NewlineIsBreak(layout, level, "}" + rest);
    } else {
      PrintFieldsIsText(fields[1..], layout, level, rest);
      NewlineIsBreak(layout, level + 1, PrintFields(fields[1..], layout, level, rest));
      AssocFive(
        Member(fields[0], layout, level + 1), ",", Break(layout, level + 1),
        Members(fields[1..], layout, level + 1), tail);
    }
  }

  lemma {:induction false} PrintFieldIsText(field: Field, layout: Layout, level: nat, rest: string)
    ensures PrintField(field, layout, level, rest) == Member(field, layout, level) + rest
    decreases field, 0
  {
    var value := PrintTo(field.value, layout, level, rest);
    PrintIsText(field.value, layout, level, rest);
    QuotedIsPrinted(field.key, Colon(layout, value));
    AssocFour(
      Quoted(field.key), if layout == Compact then ":" else ": ", Text(field.value, layout, level), rest);
  }

  /** What `to_vec` and `to_vec_pretty` return. */
  lemma ToBytesExactly(v: Json, layout: Layout)
    ensures ToBytes(v, layout) == Utf8.Encode(Text(v, layout, 0))
  {
    PrintIsText(v, layout, 0, "");
    assert Text(v, layout, 0) + "" == Text(v, layout, 0);
  }

  // ---------------------------------------------------------------- escapes

  /** Which characters are escaped, and how: by a letter if there is one, by
      four lowercase hex digits otherwise; a slash is not escaped. */
  lemma EscapesExactly(c: char)
    ensures
      var e := EscapeChar(c);
      && (e == [c] <==> ' ' <= c && c != '"' && c != '\\')
      && (forall letter :: letter != '/' && IsShortEscape(letter, c) ==> e == ['\\', letter])
      && (c < ' ' && c !in "\U{8}\U{C}\n\r\t" ==> e == "\\u" + Hex.Encode([0, c as int]))
  {
    if c < ' ' {
      var none: bytes := [];
      var low: bytes := [c as int];
      assert [0, c as int][1..] == low && low[1..] == none;
      assert Hex.Encode(low) == [Hex.Digit(c as int / 16), Hex.Digit(c as int % 16)] + Hex.Encode(none);
      assert Hex.Encode([0, c as int]) == [Hex.Digit(0), Hex.Digit(0)] + Hex.Encode(low);
    }
  }

  predicate Plain(s: string) {
    forall i | 0 <= i < |s| :: ' ' <= s[i] && s[i] != '"' && s[i] != '\\'
  }

  /** Text without such characters is quoted as it is. */
  lemma {:induction false} PlainText(s: string)
    requires Plain(s)
    ensures Escapes(s) == s
  {
    if s != "" {
      PlainText(s[1..]);
      assert s == [s[0]] + s[1..];
    }
  }

  // ---------------------------------------------------------------- records

  lemma MoreMembers(fields: seq<Field>, layout: Layout, level: nat)
    requires |fields| > 1
    ensures Members(fields, layout, level) ==
            Member(fields[0], layout, level) + ("," + (Break(layout, level) + Members(fields[1..], layout, level)))
  {
  }

  lemma PlainMember(key: string, v: Json, layout: Layout, level: nat)
    requires Plain(key)
    ensures Member(Field(key, v), layout, level)
            == "\"" + key + (if layout == Compact then "\":" else "\": ") + Text(v, layout, level)
  {
    var colon := if layout == Compact then ":" else ": ";
    var text := Text(v, layout, level);
    PlainText(key);
    assert "\"" + colon == if layout == Compact then "\":" else "\": ";
    assert ("\"" + (key + "\"")) + (colon + text) == "\"" + key + ("\"" + colon) + text;
  }

  // The compact layout has nothing between its tokens.

  lemma CompactObject(fields: seq<Field>)
    requires fields != []
    ensures Text(Object(fields), Compact, 0) == "{" + (Members(fields, Compact, 1) + "}")
  {
  }

  lemma CompactMembers(key: string, v: Json, fields: seq<Field>)
    requires Plain(key)
    ensures
      var member := "\"" + key + "\":" + Text(v, Compact, 1);
      Members([Field(key, v)] + fields, Compact, 1) ==
      if fields == [] then member else member + ("," + Members(fields, Compact, 1))
  {
    var all := [Field(key, v)] + fields;
    PlainMember(key, v, Compact, 1);
    assert all[1..] == fields;
    if fields != [] {
      MoreMembers(all, Compact, 1);
      assert Break(Compact, 1) + Members(fields, Compact, 1) == Members(fields, Compact, 1);
    }
  }

  lemma ThreeMembers(k: string, v: Json, k': string, v': Json, k'': string, v'': Json)
    requires Plain(k) && Plain(k') && Plain(k'')
    ensures Text(Object([Field(k, v), Field(k', v'), Field(k'', v'')]), Compact, 0) ==
            "{" + ("\"" + k + "\":" + Text(v, Compact, 1)
            + ("," + ("\"" + k' + "\":" + Text(v', Compact, 1)
            + ("," + ("\"" + k'' + "\":" + Text(v'', Compact, 1))))) + "}")
  {
    var f, f', f'' := Field(k, v), Field(k', v'), Field(k'', v'');
    assert [f] + [f', f''] == [f, f', f''] && [f'] + [f''] == [f', f''] && [f''] + [] == [f''];
    CompactMembers(k, v, [f', f'']);
    CompactMembers(k', v', [f'']);
    CompactMembers(k'', v'', []);
    CompactObject([f, f', f'']);
  }

  /** A statement is hashed as this text, which has no white space of its own. */
  lemma StatementText(s: ProofStatement)
    ensures
      var commitment := Text(ByteArray(s.stateCommitment), Compact, 1);
      var context := Text(ByteArray(s.context), Compact, 1);
      var inputs := Text(Texts(s.publicInputs), Compact, 1);
      CanonicalStatement(s) == Utf8.Encode(
        "{" + ("\"" + "state_commitment" + "\":" + commitment
        + ("," + ("\"" + "context" + "\":" + context
        + ("," + ("\"" + "public_inputs" + "\":" + inputs)))) + "}"))
  {
    CanonicalStatementExactly(s);
    ThreeMembers(
      "state_commitment", ByteArray(s.stateCommitment), "context", ByteArray(s.context),
      "public_inputs", Texts(s.publicInputs));
  }

  /** Bytes inside it are decimal numbers with commas between them. */
  lemma CompactBytes(b: bytes)
    ensures Text(ByteArray(b), Compact, 1) == "[" + ((if b == [] then "" else Numbers(b, ",")) + "]")
  {
    if b != [] {
      BytesAreNumbers(b, Compact, 1);
      assert "," + Break(Compact, 2) == ",";
      assert Break(Compact, 1) + "]" == "]";
    } else {
      assert "" + "]" == "]" && "[" + "]" == "[]";
    }
  }

  /** The second line of a stored file is indented by two spaces. */
  lemma FileStarts(fields: seq<Field>)
    requires fields != []
    ensures
      var text := Text(Object(fields), Pretty, 0);
      |text| > 5 && text[0] == '{' && text[1] == '\n' && text[2] == ' ' && text[3] == ' ' && text[4] == '"'
  {
    var members := Members(fields, Pretty, 1);
    assert Member(fields[0], Pretty, 1)[0] == '"' && |Member(fields[0], Pretty, 1)| > 1;
    assert |members| > 1 && members[0] == '"';
    var indent := Break(Pretty, 1);
    assert |indent| == 3 && indent[0] == '\n' && indent[1] == ' ' && indent[2] == ' ';
  }

  /** The bytes that a mock proof hashes for a statement: these three fields, in
      this order and with no white space. */
  lemma CanonicalStatementExactly(s: ProofStatement)
    ensures CanonicalStatement(s) == Utf8.Encode(Text(
              Object([
                Field("state_commitment", ByteArray(s.stateCommitment)),
                Field("context", ByteArray(s.context)),
                Field("public_inputs", Texts(s.publicInputs))]),
              Compact, 0))
  {
    RecordLayout.StatementIsWritten(s);
    ToBytesExactly(StatementToJson(s), Compact);
  }

  /** The bytes that are stored for a payload: these six fields, indented. */
  lemma EncodePayloadExactly(p: UploadPayload)
    ensures EncodePayload(p) == Utf8.Encode(Text(
              Object([
                Field("version", Number(p.version)),
                Field("encrypted_blob", ByteArray(p.encryptedBlob)),
                Field("state_commitment", ByteArray(p.stateCommitment)),
                Field("proof_statement", StatementToJson(p.proofStatement)),
                Field("proof", BundleToJson(p.proof)),
                Field("metadata", MetadataToJson(p.metadata))]),
              Pretty, 0))
  {
    RecordLayout.PayloadIsWritten(p);
    ToBytesExactly(PayloadToJson(p), Pretty);
  }

  /** The bytes of an artifact file: these six fields, indented. */
  lemma EncodeArtifactExactly(a: VerificationArtifact)
    ensures EncodeArtifact(a) == Utf8.Encode(Text(
              Object([
                Field("version", Number(a.version)),
                Field("source_file", String(a.sourceFile)),
                Field("storage_mode", String(a.storageMode)),
                Field("payload_summary", SummaryToJson(a.payloadSummary)),
                Field("upload_receipt", ReceiptToJson(a.uploadReceipt)),
                Field("commitment_submission", SubmissionToJson(a.commitmentSubmission))]),
              Pretty, 0))
  {
    RecordLayout.ArtifactIsWritten(a);
    ToBytesExactly(ArtifactToJson(a), Pretty);
  }

  /** Byte arrays are arrays of decimal numbers. */
  lemma BytesAreNumbers(b: bytes, layout: Layout, level: nat)
    requires b != []
    ensures Text(ByteArray(b), layout, level) ==
            "[" + (Break(layout, level + 1) + (Numbers(b, "," + Break(layout, level + 1))
            + (Break(layout, level) + "]")))
  {
    ItemsAreNumbers(b, layout, level + 1);
  }

  function Numbers(b: bytes, separator: string): string
    requires b != []
  {
    if |b| == 1 then Decimal.Print(b[0]) else Decimal.Print(b[0]) + (separator + Numbers(b[1..], separator))
  }

  lemma {:induction false} ItemsAreNumbers(b: bytes, layout: Layout, level: nat)
    requires b != []
    ensures Items(ByteArray(b).items, layout, level) == Numbers(b, "," + Break(layout, level))
  {
    if |b| > 1 {
      ItemsAreNumbers(b[1..], layout, level);
      assert ByteArray(b).items[1..] == ByteArray(b[1..]).items;
      Assoc(",", Break(layout, level), Numbers(b[1..], "," + Break(layout, level)));
    }
  }
}
