/** What looks at both Windows backends of a host while one takes over from the other. */
module Observer {
  import opened Prefixes

  /** Both backends report to it at every command that changes what is in force. `gap` turns true, for
      good, once an entry of `watched` is enforced by neither. `watches` are the sets it was ever told to
      watch. */
  class Observer {
    ghost var watched: set<Prefix>
    ghost var watches: seq<set<Prefix>>
    ghost var byWfp: set<Prefix>
    ghost var byNetsh: set<Prefix>
    ghost var gap: bool

    constructor ()
      ensures watched == {} && watches == [] && byWfp == {} && byNetsh == {} && !gap
    {
      watched, watches, byWfp, byNetsh, gap := {}, [], {}, {}, false;
    }

    ghost predicate Protected()
      reads this
    {
      watched <= byWfp + byNetsh
    }

    /** These entries are watched from now on; a gap seen before stays. */
    ghost method Watch(watched: set<Prefix>, byWfp: set<Prefix>, byNetsh: set<Prefix>)
      modifies this
      ensures this.watched == watched && watches == old(watches) + [watched]
      ensures this.byWfp == byWfp && this.byNetsh == byNetsh
      ensures gap == (old(gap) || !Protected())
    {
      this.watched, watches := watched, watches + [watched];
      this.byWfp, this.byNetsh := byWfp, byNetsh;
      gap := gap || !Protected();
    }

    /** Nothing is watched from now on. */
    ghost method Rest()
      modifies `watched
      ensures watched == {}
    {
      watched := {};
    }

    ghost method SeeWfp(byWfp: set<Prefix>)
      modifies `byWfp, `gap
      ensures this.byWfp == byWfp && gap == (old(gap) || !Protected())
    {
      this.byWfp := byWfp;
      gap := gap || !Protected();
    }

    ghost method SeeNetsh(byNetsh: set<Prefix>)
      modifies `byNetsh, `gap
      ensures this.byNetsh == byNetsh && gap == (old(gap) || !Protected())
    {
      this.byNetsh := byNetsh;
      gap := gap || !Protected();
    }
  }
}
