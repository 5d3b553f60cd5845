/**
 * `Action.Group`: named groups of actions, kept in one name-keyed table (`groupsByName`) that
 * already holds the two predefined groups "All" and "Ungrouped".
 */
module Groups {
  import opened Basics

  class Group {
    const name: string

    constructor (name: string)
      ensures this.name == name
    {
      this.name := name;
    }
  }

  /** Creating a group under a name the table already holds throws. */
  datatype GroupError = DuplicateName(name: string)

  /** The static `groupsByName` dictionary together with `Group.all` and `Group.ungrouped`. */
  class GroupTable {
    var byName: map<string, Group>
    const all: Group
    const ungrouped: Group

    /** Every group is filed under its own name, the two predefined ones among them. */
    ghost predicate Valid()
      reads this
    {
      && "All" in byName && byName["All"] == all
      && "Ungrouped" in byName && byName["Ungrouped"] == ungrouped
      && forall n :: n in byName ==> byName[n].name == n
    }

    /** The static initialisation: `all` and `ungrouped` register themselves. */
    constructor ()
      ensures Valid() && byName == map["All" := all, "Ungrouped" := ungrouped]
      ensures all.name == "All" && ungrouped.name == "Ungrouped" && all != ungrouped
    {
      var a := new Group("All");
      var u := new Group("Ungrouped");
      all, ungrouped := a, u;
      byName := map["All" := a, "Ungrouped" := u];
    }

    /** `NewGroup`: a fresh group under a new name, or the constructor's exception for a taken one. */
    method NewGroup(name: string) returns (r: Result<Group, GroupError>)
      requires Valid()
      modifies this
      ensures Valid()
      ensures name in old(byName) ==> r == Err(DuplicateName(name)) && byName == old(byName)
      ensures name !in old(byName) ==> r.Ok? && fresh(r.value) && byName == old(byName)[name := r.value]
      ensures r.Ok? ==> Get(name) == Some(r.value) && r.value.name == name
    {
      if name in byName {
        return Err(DuplicateName(name));
      }
      var g := new Group(name);
      byName := byName[name := g];
      r := Ok(g);
    }

    /** `Get`: the group filed under `name`, or null for an unknown name. */
    function Get(name: string): (r: Option<Group>)
      requires Valid()
      reads this
      ensures r.Some? <==> name in byName
      ensures r.Some? ==> r.value.name == name && byName[name] == r.value
    {
      if name in byName then Some(byName[name]) else None
    }
  }
}
