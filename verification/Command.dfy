/** The parts of a Command that arguments and groups interact with. Command.java is not part of this
    model: a command is reduced to the flag `uniqueArgumentReceivedValue()` reports and the list of
    arguments `addArgument` has received. */
module Commands {
  import opened Ids

  datatype Command = Command(uniqueArgumentReceivedValue: bool, arguments: seq<ArgId>)

  /** `Command.addArgument`, stubbed as appending the argument; the command's own checks are not
      modelled. */
  function AddArgument(c: Command, a: ArgId): (r: Command)
    ensures r.arguments == c.arguments + [a]
    ensures r.uniqueArgumentReceivedValue == c.uniqueArgumentReceivedValue
  {
    c.(arguments := c.arguments + [a])
  }
}
