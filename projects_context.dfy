/**
 * The project registry: the connected repositories in a record keyed by the
 * repository id written as a string. Loading it from and saving it to
 * local storage is not modelled.
 */
module Projects {
  import opened Wrappers
  import opened Repositories
  import JsString

  /** `id.toString()`, the key a project is stored under. */
  function IdKey(id: int): (key: string)
    ensures key != [] && (key[0] == '-' <==> id < 0)
  {
    JsString.IntToString(id)
  }

  /** Every key is its project's id as a string. */
  ghost predicate KeysMatchIds(m: map<string, Repository>) {
    forall k :: k in m ==> k == IdKey(m[k].id)
  }

  /** Some stored project has this id. */
  ghost predicate HasId(m: map<string, Repository>, id: int) {
    exists k :: k in m && m[k].id == id
  }

  /** Adding keeps every key equal to its project's id. */
  lemma AddKeepsKeysMatchingIds(m: map<string, Repository>, p: Repository)
    requires KeysMatchIds(m)
    ensures KeysMatchIds(m[IdKey(p.id) := p])
  {
  }

  /**
   * Adding a project makes it the only stored project with its id and keeps
   * every stored project with another id where it was.
   */
  lemma AddReplacesOnlySameId(m: map<string, Repository>, p: Repository)
    requires KeysMatchIds(m)
    ensures var m' := m[IdKey(p.id) := p];
      && HasId(m', p.id)
      && (forall k :: k in m' && m'[k].id == p.id ==> m'[k] == p)
      && (forall k :: k in m && m[k].id != p.id ==> k in m' && m'[k] == m[k])
      && |m'| <= |m| + 1
  {
    var m' := m[IdKey(p.id) := p];
    assert IdKey(p.id) in m';
    forall k | k in m && m[k].id != p.id ensures k != IdKey(p.id) {
      if k == IdKey(p.id) {
        JsString.IntToStringInjective(m[k].id, p.id);
      }
    }
  }

  /** With keys matching ids, the only entry that can hold an id is the one under its string. */
  lemma OnlyKeyForId(m: map<string, Repository>, id: int)
    requires KeysMatchIds(m)
    ensures HasId(m, id) <==> IdKey(id) in m
    ensures IdKey(id) in m ==> m[IdKey(id)].id == id
  {
    if IdKey(id) in m {
      JsString.IntToStringInjective(m[IdKey(id)].id, id);
    }
  }

  /** Removing an entry keeps every key equal to its project's id. */
  lemma RemoveKeepsKeysMatchingIds(m: map<string, Repository>, k: string)
    requires KeysMatchIds(m)
    ensures KeysMatchIds(m - {k})
  {
  }

  /** The registry object: one record, updated by copy-and-assign. */
  class ProjectStore {
    var projects: map<string, Repository>

    /** The record starts empty. */
    constructor ()
      ensures projects == map[] && KeysMatchIds(projects)
    {
      projects := map[];
    }

    /** `addProject`: stores the project under its id string, replacing what was there. */
    method AddProject(project: Repository)
      modifies this
      ensures projects == old(projects)[IdKey(project.id) := project]
      ensures old(KeysMatchIds(projects)) ==> KeysMatchIds(projects)
    {
      var newProjects := projects;
      newProjects := newProjects[IdKey(project.id) := project];
      projects := newProjects;
    }

    /**
     * `removeProject`: deletes the first entry, in the record's iteration
     * order, whose project has the id, and nothing else. The model does not
     * fix that order; it picks the entries one at a time.
     */
    method RemoveProject(id: int)
      modifies this
      ensures HasId(old(projects), id) ==>
        exists k :: k in old(projects) && old(projects)[k].id == id && projects == old(projects) - {k}
      ensures !HasId(old(projects), id) ==> projects == old(projects)
      ensures old(KeysMatchIds(projects)) ==> projects == old(projects) - {IdKey(id)}
    {
      var newProjects := projects;
      var remaining := projects.Keys;
      while remaining != {}
        invariant remaining <= projects.Keys
        invariant newProjects == projects
        invariant forall k :: k in projects && k !in remaining ==> projects[k].id != id
        decreases remaining
      {
        var key :| key in remaining;
        if projects[key].id == id {
          newProjects := newProjects - {key};
          break;
        }
        remaining := remaining - {key};
      }
      if KeysMatchIds(projects) && newProjects == projects {
        OnlyKeyForId(projects, id);
      }
      projects := newProjects;
    }

    /** `getProject`: a stored project with the id, or None when there is none. */
    method GetProject(id: int) returns (found: Option<Repository>)
      ensures found.None? <==> !HasId(projects, id)
      ensures found.Some? ==> found.value.id == id && found.value in projects.Values
      ensures found.Some? && KeysMatchIds(projects) ==> found == Some(projects[IdKey(id)])
    {
      var remaining := projects.Keys;
      while remaining != {}
        invariant remaining <= projects.Keys
        invariant forall k :: k in projects && k !in remaining ==> projects[k].id != id
        decreases remaining
      {
        var key :| key in remaining;
        if projects[key].id == id {
          if KeysMatchIds(projects) {
            JsString.IntToStringInjective(projects[key].id, id);
          }
          return Some(projects[key]);
        }
        remaining := remaining - {key};
      }
      return None;
    }
  }
}
