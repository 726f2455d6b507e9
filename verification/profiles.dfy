/** The profile store (`ProfileManager`): a JSON object from profile name to
    the five connection settings. Saving overwrites the whole record.
 */
module Profiles {
  import opened Storage

  datatype Profile = Profile(
    smtpServer: string,
    smtpPort: string,
    imapServer: string,
    username: string,
    password: string)

  class ProfileManager {
    var file: FileState<map<string, Profile>>

    /** `__init__` with `_ensure_file_exists`: a missing file is created
        holding the empty object. */
    constructor (initial: FileState<map<string, Profile>>)
      ensures file == if initial.Absent? then Ok(map[]) else initial
    {
      file := if initial.Absent? then Ok(map[]) else initial;
    }

    /** `load_profiles`: the stored table, or the empty table when the file is
        missing or undecodable. */
    function LoadProfiles(): (profiles: map<string, Profile>)
      reads this
      ensures file.Ok? ==> profiles == file.data
      ensures !file.Ok? ==> profiles == map[]
    {
      if file.Ok? then file.data else map[]
    }

    /** `get_profile`: the record of a stored name, `None` otherwise. */
    function GetProfile(name: string): (r: Option<Profile>)
      reads this
      ensures r.Some? <==> name in LoadProfiles()
      ensures r.Some? ==> r.value == LoadProfiles()[name]
    {
      if name in LoadProfiles() then Some(LoadProfiles()[name]) else None
    }

    /** `get_profile_names`: exactly the stored names. */
    function GetProfileNames(): (names: set<string>)
      reads this
      ensures forall n :: n in names <==> GetProfile(n).Some?
    {
      LoadProfiles().Keys
    }

    /** `save_profile`: load, set the named record to exactly the five given
        fields (replacing any earlier one), write. */
    method SaveProfile(name: string, smtpServer: string, smtpPort: string, imapServer: string, username: string, password: string)
      modifies this
      ensures file == Ok(old(LoadProfiles())[name := Profile(smtpServer, smtpPort, imapServer, username, password)])
      ensures GetProfile(name) == Some(Profile(smtpServer, smtpPort, imapServer, username, password))
      ensures forall other :: other != name ==> GetProfile(other) == old(GetProfile(other))
      ensures GetProfileNames() == old(GetProfileNames()) + {name}
    {
      var profiles := LoadProfiles();
      profiles := profiles[name := Profile(smtpServer, smtpPort, imapServer, username, password)];
      file := Ok(profiles);
    }
  }
}
