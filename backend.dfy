// The database the harness drives (bustub::BustubInstance::ExecuteSql).
// Its storage, index and query planner are not part of this model: the
// instance is an oracle that answers each command with a status and result
// rows, where the answer may depend on every command issued before it. The
// instance keeps the log of commands it has been given, which is what the
// driver's contracts speak about.
module Backend {
  import opened FileWords

  /** The commands the harness issues. Each carries the values its SQL text
      embeds; the text itself is not modelled. */
  datatype Command =
    | CreateIndex                               // CREATE INDEX ... USING hnsw
    | Insert(vector: seq<int32>, id: nat)       // INSERT INTO t1 VALUES (ARRAY <vector>, <id>)
    | Query(vector: seq<int32>, limit: nat)     // SELECT v2, v1 ... ORDER BY <vector> <-> v1 LIMIT <limit>

  /** A result row: its text fields, the first of which is the identifier. */
  type Row = r: seq<string> | |r| > 0 witness [""]

  /** What a command returns: its status and the rows the result writer holds. */
  datatype Reply = Reply(ok: bool, rows: seq<Row>)

  /** The replies to `cmds` issued in order to an instance whose log was `log0`. */
  function Replay(answer: (seq<Command>, Command) -> Reply, log0: seq<Command>, cmds: seq<Command>): (rs: seq<Reply>)
    ensures |rs| == |cmds|
  {
    if cmds == [] then []
    else
      var m := |cmds| - 1;
      Replay(answer, log0, cmds[..m]) + [answer(log0 + cmds[..m], cmds[m])]
  }

  /** Reply `j` answers command `j` given the log and the commands before it. */
  lemma {:induction false} ReplayAt(answer: (seq<Command>, Command) -> Reply, log0: seq<Command>, cmds: seq<Command>, j: nat)
    requires j < |cmds|
    ensures Replay(answer, log0, cmds)[j] == answer(log0 + cmds[..j], cmds[j])
  {
    var m := |cmds| - 1;
    if j < m {
      ReplayAt(answer, log0, cmds[..m], j);
      assert cmds[..m][..j] == cmds[..j];
    }
  }

  class Instance {
    /** The commands executed so far, oldest first. */
    var log: seq<Command>
    /** The answer to a command given the commands executed before it. */
    const answer: (seq<Command>, Command) -> Reply

    constructor (answer: (seq<Command>, Command) -> Reply)
      ensures log == [] && this.answer == answer
    {
      log := [];
      this.answer := answer;
    }

    /** ExecuteSql: run one command, returning its status and result rows. */
    method ExecuteSql(c: Command) returns (reply: Reply)
      modifies this
      ensures log == old(log) + [c]
      ensures reply == answer(old(log), c)
    {
      reply := answer(log, c);
      log := log + [c];
    }
  }
}
