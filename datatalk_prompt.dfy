/**
 * The prompt DataTalk sends to the chat-completion service: one line per table of the
 * application, `name: (field1, field2, ...)`, listed under a fixed header and followed by
 * fixed instructions, plus the user's question as the user message.
 */
module DataTalkPrompt {
  import opened PhpText

  /** A table of the application with its field names, in the order the host lists them. */
  datatype Table = Table(name: string, fields: seq<string>)

  /** The two-part prompt: the system message and the user message. */
  datatype Prompt = Prompt(system: string, user: string)

  const Header: seq<string> := ["MySQL tables:", ""]

  const Instructions: seq<string> := [
    "Suggest a query with descriptive column aliases to answer user questions using the above tables.",
    "Reply with only a valid SQL SELECT query and no other text.",
    "The output SQL should only include the fields mentioned in the database structure. Do not include any fields not stated in the structure."
  ]

  /** One table rendered as `name: (f1, f2, ...)`. */
  function TableLine(t: Table): string {
    t.name + ": (" + Join(", ", t.fields) + ")"
  }

  /** The rendered tables, one per table of the schema, in schema order. */
  function TableLines(schema: seq<Table>): (lines: seq<string>)
    ensures |lines| == |schema|
    ensures forall i :: 0 <= i < |schema| ==> lines[i] == TableLine(schema[i])
  {
    if schema == [] then [] else [TableLine(schema[0])] + TableLines(schema[1..])
  }

  /**
   * The table list is rewritten in place, each entry replaced by its rendered line; the
   * result holds the rendered lines in table order.
   */
  method GetTables(schema: seq<Table>) returns (tables: seq<string>)
    ensures tables == TableLines(schema)
  {
    tables := seq(|schema|, i requires 0 <= i < |schema| => schema[i].name);
    for i := 0 to |schema|
      invariant |tables| == |schema|
      invariant forall k :: 0 <= k < i ==> tables[k] == TableLine(schema[k])
    {
      tables := tables[i := TableLine(schema[i])];
    }
  }

  /** The system message: header, `"- " . implode("\n- ", tables)`, a blank line and the instructions, joined by line feeds. */
  function SystemMessage(lines: seq<string>): string {
    Join("\n", Header + ["- " + Join("\n- ", lines), ""] + Instructions)
  }

  function PreparePrompt(question: string, schema: seq<Table>): (p: Prompt)
    ensures p.user == question
  {
    Prompt(SystemMessage(TableLines(schema)), question)
  }

  /** The bullet lines of the system message: one `- line` per table, or a lone `- ` when there is no table. */
  function Bullets(lines: seq<string>): seq<string> {
    if lines == [] then ["- "] else Prefixed("- ", lines)
  }

  /** No table name and no field name holds a line feed. */
  predicate NoLineFeed(schema: seq<Table>) {
    && (forall i :: 0 <= i < |schema| ==> '\n' !in schema[i].name)
    && (forall i, j :: 0 <= i < |schema| && 0 <= j < |schema[i].fields| ==> '\n' !in schema[i].fields[j])
  }

  lemma TableLineHasNoLineFeed(t: Table)
    requires '\n' !in t.name
    requires forall j :: 0 <= j < |t.fields| ==> '\n' !in t.fields[j]
    ensures '\n' !in "- " + TableLine(t)
  {
    JoinFree(", ", t.fields, '\n');
  }

  lemma HeaderHasNoLineFeed()
    ensures forall i :: 0 <= i < |Header| ==> '\n' !in Header[i]
  {
  }

  /** The part of the system message before the closing block is the line-feed join of the header and the bullets. */
  lemma {:induction false} SystemMessageLines(lines: seq<string>)
    ensures SystemMessage(lines) == Join("\n", Header + Bullets(lines)) + "\n" + Join("\n", [""] + Instructions)
  {
    var tail := [""] + Instructions;
    var b := "- " + Join("\n- ", lines);
    assert Header + [b, ""] + Instructions == (Header + [b]) + tail;
    JoinAppend("\n", Header + [b], tail);
    assert SystemMessage(lines) == Join("\n", Header + [b]) + "\n" + Join("\n", tail);
    if lines != [] {
      BulletJoin(lines);
      JoinAppend("\n", Header, Bullets(lines));
      JoinAppend("\n", Header, [b]);
      assert Join("\n", [b]) == b == Join("\n", Bullets(lines));
      assert Join("\n", Header + Bullets(lines)) == Join("\n", Header + [b]);
    } else {
      assert b == "- " + "" == "- ";
      assert Bullets(lines) == [b];
    }
  }

  /**
   * Read line by line, the system message is the header, then exactly one line
   * `- name: (f1, f2, ...)` per table in schema order (a lone `- ` when there is no table),
   * then the lines of the closing block.
   */
  lemma PromptListsOneLinePerTable(question: string, schema: seq<Table>)
    requires NoLineFeed(schema)
    ensures Split(PreparePrompt(question, schema).system, '\n')
         == Header + Bullets(TableLines(schema)) + Split(Join("\n", [""] + Instructions), '\n')
  {
    var lines := TableLines(schema);
    var front := Header + Bullets(lines);
    SystemMessageLines(lines);
    HeaderHasNoLineFeed();
    forall i | 0 <= i < |front| ensures '\n' !in front[i] {
      if i >= |Header| && lines != [] {
        TableLineHasNoLineFeed(schema[i - |Header|]);
      }
    }
    SplitJoinThen(front, '\n', Join("\n", [""] + Instructions));
  }
}
