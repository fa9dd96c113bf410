/** The remotes directory: one file per remote name holding its URI. */
module GitletRemoteStore {
  import opened Wrappers
  import opened GitletCommit

  class RemoteStore {
    var remotes: map<Name, string>

    constructor ()
      ensures remotes == map[]
    {
      remotes := map[];
    }

    /** getRemoteURI: the stored URI, or None for an unknown name. */
    function GetRemoteURI(name: Name): (r: Option<string>)
      reads this
      ensures r.None? <==> name !in remotes
      ensures r.Some? ==> r.value == remotes[name]
    {
      if name in remotes then Some(remotes[name]) else None
    }

    function Contains(name: Name): (b: bool)
      reads this
      ensures b <==> GetRemoteURI(name).Some?
    {
      name in remotes
    }

    /** addRemote: refuses an existing name and changes nothing; otherwise stores the URI. */
    method AddRemote(name: Name, uri: string) returns (o: Outcome<string>)
      modifies this
      ensures o.Fail? <==> old(Contains(name))
      ensures o.Fail? ==> o.error == "A remote with that name already exists." && remotes == old(remotes)
      ensures o.Pass? ==> remotes == old(remotes)[name := uri] && GetRemoteURI(name) == Some(uri)
    {
      if name in remotes {
        return Fail("A remote with that name already exists.");
      }
      remotes := remotes[name := uri];
      return Pass;
    }

    /** removeRemote: refuses an unknown name and changes nothing; otherwise deletes it. */
    method RemoveRemote(name: Name) returns (o: Outcome<string>)
      modifies this
      ensures o.Fail? <==> !old(Contains(name))
      ensures o.Fail? ==> o.error == "A remote with that name does not exist." && remotes == old(remotes)
      ensures o.Pass? ==> remotes == old(remotes) - {name} && !Contains(name)
    {
      if name !in remotes {
        return Fail("A remote with that name does not exist.");
      }
      remotes := remotes - {name};
      return Pass;
    }
  }
}
