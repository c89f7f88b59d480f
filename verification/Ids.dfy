/** Arena identities. Java's object references become stable indices into the maps of
    ArgumentGroups.World, so identity comparisons (`arg == argument`, `getParentGroup() == this`)
    become comparisons of ids. */
module Ids {

  type ArgId = nat

  type GroupId = nat

  type CmdId = nat
}
