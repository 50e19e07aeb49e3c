/**
 The registry of open links: one manager for each user, which holds the user's open writers so that
 dropping the user can close them.
 */
module Links {
  /** The reading end of a link. */
  class Reader {
    var interrupts: nat

    constructor ()
      ensures interrupts == 0
    {
      interrupts := 0;
    }
  }

  /** A writer that takes itself off its manager's list when it is closed. */
  class ManagedWriter {
    const email: string
    const manager: LinkManager
    var closes: nat

    constructor (email: string, manager: LinkManager)
      ensures this.email == email && this.manager == manager && closes == 0
    {
      this.email, this.manager, closes := email, manager, 0;
    }

    method Close()
      modifies this, manager
      ensures closes == old(closes) + 1 && manager.links == old(manager.links) - {this}
    {
      manager.RemoveWriter(this);
      closes := closes + 1;
    }
  }

  class LinkManager {
    var links: map<ManagedWriter, Reader>

    constructor ()
      ensures links == map[]
    {
      links := map[];
    }

    /** The links are this manager's, and no two share a reader. */
    ghost predicate Valid()
      reads this, links.Keys
    {
      && (forall w :: w in links ==> w.manager == this)
      && (forall v, w :: v in links && w in links && v != w ==> links[v] != links[w])
    }

    method AddLink(writer: ManagedWriter, reader: Reader)
      modifies this
      ensures links == old(links)[writer := reader]
    {
      links := links[writer := reader];
    }

    method RemoveWriter(writer: ManagedWriter)
      modifies this
      ensures links == old(links) - {writer}
    {
      links := links - {writer};
    }

    /** Ranges over the links while closing each takes it off the list: every link that was registered is
        closed and interrupted exactly once, and none is left. Entries that are gone when the range comes
        to them are skipped. */
    method CloseAll()
      requires Valid()
      modifies this, links.Keys, links.Values
      ensures links == map[]
      ensures forall w :: w in old(links) ==>
        w.closes == old(w.closes) + 1 && old(links)[w].interrupts == old(links[w].interrupts) + 1
    {
      ghost var all := links;
      var writers := links.Keys;
      while writers != {}
        invariant writers <= all.Keys && links == all - (all.Keys - writers)
        invariant forall w :: w in writers ==> w.closes == old(w.closes) && all[w].interrupts == old(all[w].interrupts)
        invariant forall w :: w in all && w !in writers ==>
          w.closes == old(w.closes) + 1 && all[w].interrupts == old(all[w].interrupts) + 1
        decreases writers
      {
        var w :| w in writers;
        writers := writers - {w};
        if w in links {
          var r := links[w];
          w.Close();
          r.interrupts := r.interrupts + 1;
        }
      }
    }
  }

  /** The links on a manager's list are writers of one user that have this manager, each with a reader of
      its own. */
  predicate LinksFit(links: map<ManagedWriter, Reader>, email: string, lm: LinkManager,
                     issued: set<ManagedWriter>, readers: set<Reader>) {
    && (forall w :: w in links ==> w in issued && w.email == email && w.manager == lm && links[w] in readers)
    && (forall v, w :: v in links && w in links && v != w ==> links[v] != links[w])
  }

  lemma LinkAdded(links: map<ManagedWriter, Reader>, email: string, lm: LinkManager, issued: set<ManagedWriter>,
                  readers: set<Reader>, w: ManagedWriter, r: Reader)
    requires LinksFit(links, email, lm, issued, readers)
    requires w.email == email && w.manager == lm && r !in readers
    ensures LinksFit(links[w := r], email, lm, issued + {w}, readers + {r})
  {
  }

  lemma LinksStay(links: map<ManagedWriter, Reader>, email: string, lm: LinkManager, issued: set<ManagedWriter>,
                  readers: set<Reader>, w: ManagedWriter, r: Reader)
    requires LinksFit(links, email, lm, issued, readers)
    ensures LinksFit(links, email, lm, issued + {w}, readers + {r})
  {
  }

  /** The part of the dispatcher that keeps the managers, and the part of the core's user deletion that
      uses them. `issued` are all writers ever handed out, `managers` and `readers` all that were made. */
  class Dispatcher {
    var LinkManagers: map<string, LinkManager>
    ghost var issued: set<ManagedWriter>
    ghost var managers: set<LinkManager>
    ghost var readers: set<Reader>

    /** A user's writers that are not closed yet. */
    ghost function OpenWriters(email: string): set<ManagedWriter>
      reads this, issued
    {
      set w | w in issued && w.email == email && w.closes == 0
    }

    /** The links on a user's list. */
    ghost function OpenLinks(email: string): map<ManagedWriter, Reader>
      reads this, managers
      requires ManagersFit()
    {
      if email in LinkManagers then LinkManagers[email].links else map[]
    }

    /** Managers belong to one user each. */
    ghost predicate OneEach()
      reads this
    {
      && (forall e :: e in LinkManagers ==> LinkManagers[e] in managers)
      && (forall e, f :: e in LinkManagers && f in LinkManagers && e != f ==> LinkManagers[e] != LinkManagers[f])
    }

    /** The list of one user in the table fits. */
    ghost predicate ListFits(email: string)
      reads this, managers
      requires OneEach() && email in LinkManagers
    {
      LinksFit(LinkManagers[email].links, email, LinkManagers[email], issued, readers)
    }

    ghost predicate ManagersFit()
      reads this, managers
    {
      OneEach() && forall e :: e in LinkManagers ==> ListFits(e)
    }

    /** A writer is on its user's list. */
    ghost predicate IsListed(w: ManagedWriter)
      reads this, managers
      requires OneEach()
    {
      w.email in LinkManagers && w in LinkManagers[w.email].links
    }

    /** A writer is listed if and only if it is open. */
    ghost predicate ListedWhileOpen(w: ManagedWriter)
      reads this, managers, w
      requires OneEach()
    {
      IsListed(w) <==> w.closes == 0
    }

    /** Exactly the writers that are not closed are listed. */
    ghost predicate Valid()
      reads this, issued, managers
    {
      && ManagersFit()
      && (forall w :: w in issued ==> w.manager in managers)
      && (forall w :: w in issued ==> ListedWhileOpen(w))
    }

    /** So a manager in use always holds exactly its user's open writers. */
    lemma HoldsOpenWriters(email: string)
      requires Valid()
      ensures OpenLinks(email).Keys == OpenWriters(email)
    {
      if email in LinkManagers {
        var links := LinkManagers[email].links;
        forall w ensures w in links <==> w in OpenWriters(email) {
          assert ListFits(email);
          if w in links || w in OpenWriters(email) { assert ListedWhileOpen(w); }
        }
      } else {
        forall w | w in issued && w.email == email ensures w.closes != 0 {
          assert ListedWhileOpen(w);
        }
      }
    }

    constructor ()
      ensures Valid() && issued == {} && fresh(managers) && fresh(readers)
    {
      LinkManagers, issued, managers, readers := map[], {}, {}, {};
    }

    /** The manager of a user, made on first use. */
    method ManagerOf(email: string) returns (lm: LinkManager)
      requires Valid()
      modifies this
      ensures Valid() && email in LinkManagers && LinkManagers[email] == lm
      ensures issued == old(issued) && readers == old(readers)
      ensures managers == old(managers) || (managers == old(managers) + {lm} && fresh(lm))
    {
      if email in LinkManagers {
        lm := LinkManagers[email];
      } else {
        lm := new LinkManager();
        managers := managers + {lm};
        LinkManagers := LinkManagers[email := lm];
      }
    }

    /** Puts a new link on the list of a manager in use. */
    method Attach(email: string, lm: LinkManager) returns (writer: ManagedWriter, reader: Reader)
      requires Valid() && email in LinkManagers && LinkManagers[email] == lm
      modifies `issued, `readers, lm
      ensures Valid() && fresh(writer) && fresh(reader)
      ensures issued == old(issued) + {writer} && readers == old(readers) + {reader}
      ensures writer.email == email && writer.closes == 0 && reader.interrupts == 0
    {
      writer := new ManagedWriter(email, lm);
      reader := new Reader();
      lm.AddLink(writer, reader);
      issued := issued + {writer};
      readers := readers + {reader};
      forall e | e in LinkManagers ensures ListFits(e) {
        assert old(ListFits(e));
        if e == email {
          LinkAdded(old(lm.links), e, lm, old(issued), old(readers), writer, reader);
        } else {
          LinksStay(LinkManagers[e].links, e, LinkManagers[e], old(issued), old(readers), writer, reader);
        }
      }
      forall w | w in issued ensures ListedWhileOpen(w) {
        assert w != writer ==> old(ListedWhileOpen(w));
      }
    }

    /** The link registration of an admitted connection. */
    method Register(email: string) returns (writer: ManagedWriter, reader: Reader)
      requires Valid()
      modifies this, managers
      ensures Valid() && fresh(writer) && fresh(reader) && fresh(managers - old(managers))
      ensures issued == old(issued) + {writer} && readers == old(readers) + {reader}
      ensures writer.email == email && writer.closes == 0 && reader.interrupts == 0
    {
      var lm := ManagerOf(email);
      writer, reader := Attach(email, lm);
    }

    /** A connection closes its writer. */
    method CloseWriter(writer: ManagedWriter)
      requires Valid() && writer in issued
      modifies writer, writer.manager
      ensures Valid() && writer.closes == old(writer.closes) + 1
    {
      writer.Close();
    }

    /** Closes all links of a user that has a manager. */
    method CloseLinks(email: string)
      requires Valid() && email in LinkManagers
      modifies LinkManagers[email], LinkManagers[email].links.Keys, LinkManagers[email].links.Values
      ensures Valid() && LinkManagers[email].links == map[]
      ensures forall w :: w in old(LinkManagers[email].links) ==>
        && w.closes == old(w.closes) + 1
        && old(LinkManagers[email].links)[w].interrupts == old(LinkManagers[email].links[w].interrupts) + 1
    {
      assert ListFits(email);
      LinkManagers[email].CloseAll();
      forall e | e in LinkManagers ensures ListFits(e) {
        assert old(ListFits(e));
      }
      forall w | w in issued ensures ListedWhileOpen(w) {
        assert old(ListedWhileOpen(w));
      }
    }

    /** Takes a manager without links out of the table. */
    method Forget(email: string)
      requires Valid() && email in LinkManagers && LinkManagers[email].links == map[]
      modifies `LinkManagers
      ensures Valid() && OpenLinks(email) == map[]
    {
      assert forall w :: w in issued && w.email == email ==> !IsListed(w);
      LinkManagers := LinkManagers - {email};
    }

    /** A user is dropped: each of its open links is closed once and interrupted once, no other writer or
        reader is touched, and the user is left without an open writer. */
    method DropUser(email: string)
      requires Valid()
      modifies `LinkManagers, managers, OpenLinks(email).Keys, OpenLinks(email).Values
      ensures Valid() && OpenLinks(email) == map[] && OpenWriters(email) == {}
      ensures old(OpenLinks(email).Keys == OpenWriters(email))
      ensures forall w :: w in old(OpenLinks(email)) ==>
        && w.closes == old(w.closes) + 1
        && old(OpenLinks(email))[w].interrupts == old(OpenLinks(email)[w].interrupts) + 1
    {
      HoldsOpenWriters(email);
      if email in LinkManagers {
        CloseLinks(email);
        Forget(email);
      }
      HoldsOpenWriters(email);
    }
  }
}
