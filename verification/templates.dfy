/** The template store (`TemplateManager`): a JSON object from template name
    to `{content, variables}`. Older files hold a bare string per name; every
    load upgrades those and writes the upgraded table back.

    Each public call loads the table (possibly writing the migration back),
    changes its in-memory copy and writes it out; the model's methods state
    the file they leave and the value they return in terms of `Loaded`.
 */
module Templates {
  import opened Storage

  /** A template record. A key missing from the JSON object is `None`. */
  datatype Template = Template(content: Option<string>, variables: Option<seq<string>>)

  /** A value as found in the file: a bare string (old format) or a record. */
  datatype StoredValue = Legacy(text: string) | Structured(template: Template)

  const DefaultName: string := "D\U{E9}faut"
  const BuiltinContent: string := "<h1>Bonjour {variable},</h1>\n<p>Ceci est un test.</p>"
  const DefaultVariables: seq<string> := ["variable"]

  /** The one-template table used when nothing better is available. */
  function DefaultTemplates(content: string): (t: map<string, Template>)
    ensures t.Keys == {DefaultName}
    ensures t[DefaultName] == Template(Some(content), Some(DefaultVariables))
  {
    map[DefaultName := Template(Some(content), Some(DefaultVariables))]
  }

  /** The migration of one stored value: a bare string becomes a record with
      that content and the single variable "variable"; a record is kept. */
  function Upgrade(v: StoredValue): (t: Template)
    ensures v.Structured? ==> t == v.template
    ensures v.Legacy? ==> t.content == Some(v.text) && t.variables == Some(DefaultVariables)
  {
    match v
    case Legacy(text) => Template(Some(text), Some(DefaultVariables))
    case Structured(t) => t
  }

  /** A table as it is written to the file. */
  function Persist(t: map<string, Template>): (m: map<string, StoredValue>)
    ensures m.Keys == t.Keys
    ensures forall k :: k in m ==> m[k] == Structured(t[k])
  {
    map k | k in t :: Structured(t[k])
  }

  predicate HasLegacy(m: map<string, StoredValue>) {
    exists k :: k in m && m[k].Legacy?
  }

  function Migrated(m: map<string, StoredValue>): (t: map<string, Template>)
    ensures t.Keys == m.Keys
    ensures forall k :: k in m ==> t[k] == Upgrade(m[k])
  {
    map k | k in m :: Upgrade(m[k])
  }

  /** What `load_templates` returns: the migrated table of a decodable file,
      otherwise the built-in default (which is not written). */
  function Loaded(f: FileState<map<string, StoredValue>>): (t: map<string, Template>)
    ensures f.Ok? ==> t.Keys == f.data.Keys && forall k :: k in t ==> t[k] == Upgrade(f.data[k])
    ensures !f.Ok? ==> t == DefaultTemplates(BuiltinContent)
  {
    if f.Ok? then Migrated(f.data) else DefaultTemplates(BuiltinContent)
  }

  /** The file `load_templates` leaves: rewritten only when something was migrated. */
  function LoadWrites(f: FileState<map<string, StoredValue>>): (g: FileState<map<string, StoredValue>>)
    ensures !f.Ok? || !HasLegacy(f.data) ==> g == f
    ensures g != f ==> f.Ok? && g.Ok? && g.data.Keys == f.data.Keys && !HasLegacy(g.data)
  {
    if f.Ok? && HasLegacy(f.data) then Ok(Persist(Migrated(f.data))) else f
  }

  /** The migration write-back changes nothing a later load sees, and a
      second load writes nothing. */
  lemma MigrationIsStable(f: FileState<map<string, StoredValue>>)
    ensures Loaded(LoadWrites(f)) == Loaded(f)
    ensures LoadWrites(LoadWrites(f)) == LoadWrites(f)
  {
    if f.Ok? && HasLegacy(f.data) {
      var t := Migrated(f.data);
      assert Migrated(Persist(t)) == t;
      assert !HasLegacy(Persist(t));
    }
  }

  /** `get_template_content`: the content of a known name (empty when the
      record has no content key), `None` for an unknown name. */
  function ContentOf(t: map<string, Template>, name: string): (r: Option<string>)
    ensures r.Some? <==> name in t
  {
    if name in t then Some(t[name].content.GetOr([])) else None
  }

  /** `get_template_variables`: the variable list of a known name, `[]` otherwise. */
  function VariablesOf(t: map<string, Template>, name: string): (vs: seq<string>)
    ensures name !in t || t[name].variables.None? ==> vs == []
    ensures name in t && t[name].variables.Some? ==> vs == t[name].variables.value
  {
    if name in t then t[name].variables.GetOr([]) else []
  }

  /** The variable list `save_template` stores: the given list; without one,
      the existing template's list (`[]` if it has none), or `["variable"]`
      for a new name. */
  function SaveVariables(t: map<string, Template>, name: string, variables: Option<seq<string>>): (vs: seq<string>)
    ensures variables.Some? ==> vs == variables.value
    ensures variables.None? && name in t ==> vs == VariablesOf(t, name)
    ensures variables.None? && name !in t ==> vs == DefaultVariables
  {
    if variables.Some? then variables.value
    else if name in t then t[name].variables.GetOr([])
    else DefaultVariables
  }

  /** The table `save_template` writes. */
  function Saved(t: map<string, Template>, name: string, content: string, variables: Option<seq<string>>): (u: map<string, Template>)
    ensures u.Keys == t.Keys + {name}
    ensures u[name].content == Some(content) && u[name].variables == Some(SaveVariables(t, name, variables))
    ensures forall n :: n in t && n != name ==> u[n] == t[n]
  {
    t[name := Template(Some(content), Some(SaveVariables(t, name, variables)))]
  }

  /** After a save, reading the name gives the new content and the chosen
      variables, and every other name reads as before. */
  lemma SaveThenRead(t: map<string, Template>, name: string, content: string, variables: Option<seq<string>>, other: string)
    requires other != name
    ensures ContentOf(Saved(t, name, content, variables), name) == Some(content)
    ensures VariablesOf(Saved(t, name, content, variables), name)
      == (if variables.Some? then variables.value else if name in t then VariablesOf(t, name) else DefaultVariables)
    ensures ContentOf(Saved(t, name, content, variables), other) == ContentOf(t, other)
    ensures VariablesOf(Saved(t, name, content, variables), other) == VariablesOf(t, other)
    ensures Saved(t, name, content, variables).Keys == t.Keys + {name}
  {
  }

  /** The guard of `rename_template`: the old name exists, the new name is
      non-empty and not taken. */
  predicate CanRename(t: map<string, Template>, oldName: string, newName: string) {
    oldName in t && newName != [] && newName !in t
  }

  /** The table after a successful rename: the record moves to the new name. */
  function Renamed(t: map<string, Template>, oldName: string, newName: string): (r: map<string, Template>)
    requires oldName in t
    ensures r.Keys == t.Keys - {oldName} + {newName}
    ensures r[newName] == t[oldName]
    ensures forall k :: k in t && k != oldName && k != newName ==> r[k] == t[k]
  {
    (t - {oldName})[newName := t[oldName]]
  }

  /** Renaming and renaming back restores the table. */
  lemma RenameRoundTrip(t: map<string, Template>, oldName: string, newName: string)
    requires CanRename(t, oldName, newName)
    ensures oldName != [] ==> CanRename(Renamed(t, oldName, newName), newName, oldName)
    ensures Renamed(Renamed(t, oldName, newName), newName, oldName) == t
  {
    var r := Renamed(t, oldName, newName);
    var back := Renamed(r, newName, oldName);
    assert back.Keys == t.Keys;
    assert forall k :: k in t ==> back[k] == t[k];
  }

  /** `list.index(x)`: the position of the first occurrence. */
  function IndexOf(s: seq<string>, x: string): (i: nat)
    requires x in s
    ensures i < |s| && s[i] == x && x !in s[..i]
  {
    if s[0] == x then 0 else 1 + IndexOf(s[1..], x)
  }

  /** `list.remove(x)`: drop the first occurrence only. */
  function RemoveFirst(s: seq<string>, x: string): (r: seq<string>)
    requires x in s
    ensures |r| == |s| - 1
    ensures forall k :: 0 <= k < |r| ==> r[k] == (if k < IndexOf(s, x) then s[k] else s[k + 1])
    ensures multiset(r) == multiset(s) - multiset{x}
  {
    var i := IndexOf(s, x);
    assert s == s[..i] + [x] + s[i + 1..];
    s[..i] + s[i + 1..]
  }

  /** `lst[lst.index(x)] = y`: the first occurrence is replaced in place. */
  function ReplaceFirst(s: seq<string>, x: string, y: string): (r: seq<string>)
    requires x in s
    ensures |r| == |s| && r[IndexOf(s, x)] == y
    ensures forall k :: 0 <= k < |s| && k != IndexOf(s, x) ==> r[k] == s[k]
  {
    s[IndexOf(s, x) := y]
  }

  predicate NoDuplicates(s: seq<string>) {
    forall i, j :: 0 <= i < j < |s| ==> s[i] != s[j]
  }

  /** The variable list `add_variable` leaves: the variable appended when it
      is non-empty and not already listed. */
  function WithVariable(s: seq<string>, v: string): (r: seq<string>)
    ensures v != [] && v !in s ==> r == s + [v]
    ensures v == [] || v in s ==> r == s
  {
    if v != [] && v !in s then s + [v] else s
  }

  /** Adding keeps a duplicate-free list duplicate-free, and the variable is
      listed afterwards whenever it is non-empty. */
  lemma WithVariableKeepsNoDuplicates(s: seq<string>, v: string)
    requires NoDuplicates(s)
    ensures NoDuplicates(WithVariable(s, v))
    ensures v != [] ==> v in WithVariable(s, v)
  {
  }

  /** Removing from a duplicate-free list removes the variable entirely. */
  lemma RemoveFirstFromNoDuplicates(s: seq<string>, x: string)
    requires NoDuplicates(s) && x in s
    ensures x !in RemoveFirst(s, x)
    ensures NoDuplicates(RemoveFirst(s, x))
  {
    var i := IndexOf(s, x);
    var r := RemoveFirst(s, x);
    forall k | 0 <= k < |r| ensures r[k] != x {
      if k < i {
        assert s[k] != s[i];
      } else {
        assert s[k + 1] != s[i];
      }
    }
    forall a, b | 0 <= a < b < |r| ensures r[a] != r[b] {
      var a' := if a < i then a else a + 1;
      var b' := if b < i then b else b + 1;
      assert s[a'] != s[b'];
    }
  }

  /** Renaming a variable to a name not in the list, then back, restores it. */
  lemma ReplaceFirstRoundTrip(s: seq<string>, x: string, y: string)
    requires x in s && y !in s
    ensures y in ReplaceFirst(s, x, y)
    ensures ReplaceFirst(ReplaceFirst(s, x, y), y, x) == s
  {
    var i := IndexOf(s, x);
    var r := ReplaceFirst(s, x, y);
    assert r[i] == y;
    assert y !in r[..i] by {
      assert r[..i] == s[..i];
    }
    assert IndexOf(r, y) == i;
  }

  /** `rename_variable` does not check the new name: renaming onto a listed
      variable creates a duplicate. */
  lemma ReplaceFirstMayDuplicate()
    ensures !NoDuplicates(ReplaceFirst(["a", "b"], "a", "b"))
  {
    assert IndexOf(["a", "b"], "a") == 0;
    var r := ReplaceFirst(["a", "b"], "a", "b");
    assert r[0] == r[1];
  }

  class TemplateManager {
    var file: FileState<map<string, StoredValue>>

    /** `__init__` with `_ensure_file_exists`: a missing file is created
        holding the default template, whose content is the legacy HTML file's
        text when that file exists and the built-in text otherwise. */
    constructor (initial: FileState<map<string, StoredValue>>, legacyHtml: Option<string>)
      ensures file == if initial.Absent? then Ok(Persist(DefaultTemplates(legacyHtml.GetOr(BuiltinContent)))) else initial
    {
      var content := BuiltinContent;
      if legacyHtml.Some? {
        content := legacyHtml.value;
      }
      file := if initial.Absent? then Ok(Persist(DefaultTemplates(content))) else initial;
    }

    /** `load_templates`: upgrade every bare-string value, write the table back
        if anything was upgraded, and return it; a missing or undecodable file
        yields the built-in default and is not written. */
    method LoadTemplates() returns (templates: map<string, Template>)
      modifies this
      ensures templates == Loaded(old(file))
      ensures file == LoadWrites(old(file))
    {
      if !file.Ok? {
        return DefaultTemplates(BuiltinContent);
      }
      var data := file.data;
      var pending := data.Keys;
      var migrated := false;
      templates := map[];
      while pending != {}
        invariant pending <= data.Keys
        invariant templates.Keys == data.Keys - pending
        invariant forall k :: k in templates ==> templates[k] == Upgrade(data[k])
        invariant migrated <==> exists k :: k in data.Keys - pending && data[k].Legacy?
        decreases pending
      {
        var k :| k in pending;
        match data[k] {
          case Legacy(text) =>
            templates := templates[k := Template(Some(text), Some(DefaultVariables))];
            migrated := true;
          case Structured(t) =>
            templates := templates[k := t];
        }
        pending := pending - {k};
      }
      assert templates == Migrated(data);
      if migrated {
        file := Ok(Persist(templates));
      }
    }

    /** `save_template`. */
    method SaveTemplate(name: string, content: string, variables: Option<seq<string>>)
      modifies this
      ensures file == Ok(Persist(Saved(Loaded(old(file)), name, content, variables)))
    {
      var templates := LoadTemplates();
      var vars: seq<string>;
      if variables.None? {
        if name in templates {
          vars := templates[name].variables.GetOr([]);
        } else {
          vars := DefaultVariables;
        }
      } else {
        vars := variables.value;
      }
      templates := templates[name := Template(Some(content), Some(vars))];
      file := Ok(Persist(templates));
    }

    /** `get_template_content`. */
    method GetTemplateContent(name: string) returns (content: Option<string>)
      modifies this
      ensures content == ContentOf(Loaded(old(file)), name)
      ensures file == LoadWrites(old(file))
    {
      var templates := LoadTemplates();
      if name in templates {
        return Some(templates[name].content.GetOr([]));
      }
      return None;
    }

    /** `get_template_variables`. */
    method GetTemplateVariables(name: string) returns (variables: seq<string>)
      modifies this
      ensures variables == VariablesOf(Loaded(old(file)), name)
      ensures file == LoadWrites(old(file))
    {
      var templates := LoadTemplates();
      if name in templates {
        return templates[name].variables.GetOr([]);
      }
      return [];
    }

    /** `get_template_names`: the names of the loaded table. */
    method GetTemplateNames() returns (names: set<string>)
      modifies this
      ensures names == Loaded(old(file)).Keys
      ensures file == LoadWrites(old(file))
    {
      var templates := LoadTemplates();
      names := templates.Keys;
    }

    /** `delete_template`: remove the name and write, or do nothing beyond the
        load when the name is absent. */
    method DeleteTemplate(name: string)
      modifies this
      ensures file == if name in Loaded(old(file)) then Ok(Persist(Loaded(old(file)) - {name})) else LoadWrites(old(file))
    {
      var templates := LoadTemplates();
      if name in templates {
        templates := templates - {name};
        file := Ok(Persist(templates));
      }
    }

    /** `rename_template`: move the record when the guard holds. */
    method RenameTemplate(oldName: string, newName: string) returns (ok: bool)
      modifies this
      ensures ok == CanRename(Loaded(old(file)), oldName, newName)
      ensures file == if ok then Ok(Persist(Renamed(Loaded(old(file)), oldName, newName))) else LoadWrites(old(file))
    {
      var templates := LoadTemplates();
      if oldName in templates && newName != [] && newName !in templates {
        var record := templates[oldName];
        templates := templates - {oldName};
        templates := templates[newName := record];
        file := Ok(Persist(templates));
        return true;
      }
      return false;
    }

    /** `add_variable`: append a non-empty, not yet listed variable to a known
        template (a record without a list gets one), and say whether it did. */
    method AddVariable(name: string, variable: string) returns (ok: bool)
      modifies this
      ensures var t := Loaded(old(file));
        ok == (name in t && variable != [] && variable !in VariablesOf(t, name))
      ensures var t := Loaded(old(file));
        file == if ok then Ok(Persist(t[name := t[name].(variables := Some(WithVariable(VariablesOf(t, name), variable)))]))
                else LoadWrites(old(file))
    {
      var templates := LoadTemplates();
      if name in templates {
        var record := templates[name];
        if record.variables.None? {
          record := record.(variables := Some([]));
        }
        var vars := record.variables.value;
        if variable != [] && variable !in vars {
          record := record.(variables := Some(vars + [variable]));
          templates := templates[name := record];
          file := Ok(Persist(templates));
          return true;
        }
      }
      return false;
    }

    /** `remove_variable`: drop the first occurrence from a template that has a
        list containing the variable, and say whether it did. */
    method RemoveVariable(name: string, variable: string) returns (ok: bool)
      modifies this
      ensures var t := Loaded(old(file));
        ok == (name in t && t[name].variables.Some? && variable in t[name].variables.value)
      ensures var t := Loaded(old(file));
        file == if ok then Ok(Persist(t[name := t[name].(variables := Some(RemoveFirst(t[name].variables.value, variable)))]))
                else LoadWrites(old(file))
    {
      var templates := LoadTemplates();
      if name in templates {
        var record := templates[name];
        if record.variables.Some? && variable in record.variables.value {
          record := record.(variables := Some(RemoveFirst(record.variables.value, variable)));
          templates := templates[name := record];
          file := Ok(Persist(templates));
          return true;
        }
      }
      return false;
    }

    /** `rename_variable`: overwrite the first occurrence of the old variable,
        at its index, with a non-empty new one; the new name may already be
        listed. */
    method RenameVariable(name: string, oldVar: string, newVar: string) returns (ok: bool)
      modifies this
      ensures var t := Loaded(old(file));
        ok == (name in t && t[name].variables.Some? && oldVar in t[name].variables.value && newVar != [])
      ensures var t := Loaded(old(file));
        file == if ok then Ok(Persist(t[name := t[name].(variables := Some(ReplaceFirst(t[name].variables.value, oldVar, newVar)))]))
                else LoadWrites(old(file))
    {
      var templates := LoadTemplates();
      if name in templates {
        var record := templates[name];
        if record.variables.Some? && oldVar in record.variables.value && newVar != [] {
          var vars := record.variables.value;
          var idx := IndexOf(vars, oldVar);
          vars := vars[idx := newVar];
          record := record.(variables := Some(vars));
          templates := templates[name := record];
          file := Ok(Persist(templates));
          return true;
        }
      }
      return false;
    }
  }
}
