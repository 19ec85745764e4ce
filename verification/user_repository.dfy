/**
 * The account store of the translation API (security/UserRepository.java): a
 * map from user name to `User`, filled from a properties file, or with two
 * default accounts when there is none. Reading the file is left to the caller,
 * which passes what it found; the digest and the salts the default passwords
 * are encoded with are parameters.
 */
module UserRepositories {
  import opened Wrappers
  import opened Users
  import Text
  import PasswordEncoding

  /** What reading `users.properties` gave: no such resource, an I/O error, or its keys and values. */
  datatype PropertiesSource = NotFound | ReadError | Found(props: map<string, string>)

  const PasswordSuffix: string := ".password"

  /** The user name a `<name>.password` key stands for: the text before the first ".password". */
  function UserNameOf(key: string): (name: string)
    ensures Text.EndsWith(key, PasswordSuffix) ==> Text.StartsWith(key, name + PasswordSuffix)
  {
    match Text.IndexOf(key, PasswordSuffix)
    case Some(i) =>
      assert key[..i + |PasswordSuffix|] == key[..i] + PasswordSuffix;
      key[..i]
    case None =>
      assert Text.EndsWith(key, PasswordSuffix) ==> Text.OccursAt(key, PasswordSuffix, |key| - |PasswordSuffix|);
      key
  }

  /** The names of the accounts a properties file defines: one per key ending in ".password". */
  function UserNames(props: map<string, string>): set<string> {
    set key | key in props && Text.EndsWith(key, PasswordSuffix) :: UserNameOf(key)
  }

  /** `prop.getProperty(key, default)`. */
  function Property(props: map<string, string>, key: string, default: string): string {
    if key in props then props[key] else default
  }

  /** The roles a `<name>.roles` value lists: split on ',', each piece trimmed. */
  function Roles(rolesText: string): (roles: set<string>)
    ensures forall r | r in roles :: ',' !in r && Text.Trim(Text.Java, r) == r
  {
    var pieces := Text.JavaSplit(rolesText, ',');
    var roles := set j | 0 <= j < |pieces| :: Text.Trim(Text.Java, pieces[j]);
    assert forall r | r in roles :: ',' !in r && Text.Trim(Text.Java, r) == r by {
      forall r | r in roles ensures ',' !in r && Text.Trim(Text.Java, r) == r {
        var j :| 0 <= j < |pieces| && r == Text.Trim(Text.Java, pieces[j]);
        TrimKeepsOut(pieces[j], ',');
        Text.TrimIdempotent(Text.Java, pieces[j]);
      }
    }
    roles
  }

  lemma TrimKeepsOut(s: string, c: char)
    requires c !in s
    ensures c !in Text.Trim(Text.Java, s)
  {
    var k := Text.TrimIsInfix(Text.Java, s);
    var r := Text.Trim(Text.Java, s);
    forall i | 0 <= i < |r| ensures r[i] != c {
      assert r[i] == s[k + i];
    }
  }

  /** A roles value without a comma is one role, trimmed. */
  lemma {:induction false} OneRole(rolesText: string)
    requires ',' !in rolesText
    ensures Roles(rolesText) == {Text.Trim(Text.Java, rolesText)}
  {
    assert Text.JavaSplit(rolesText, ',') == [rolesText];
    var roles := Roles(rolesText);
    assert Text.Trim(Text.Java, rolesText) in roles by {
      assert Text.JavaSplit(rolesText, ',')[0] == rolesText;
    }
  }

  /** Without a roles entry an account has the single role "USER". */
  lemma DefaultRoles()
    ensures Roles("USER") == {"USER"}
  {
    OneRole("USER");
    Text.TrimFixed(Text.Java, "USER");
  }

  /** A listed pair of roles, spaces around the comma and all. */
  lemma TwoRoles()
    ensures Roles("ADMIN, USER") == {"ADMIN", "USER"}
  {
    SplitAdminUser();
    RolesOfTwo("ADMIN, USER", "ADMIN", " USER");
    Text.TrimFixed(Text.Java, "ADMIN");
    TrimLeadingSpace();
  }

  lemma RolesOfTwo(rolesText: string, first: string, second: string)
    requires Text.JavaSplit(rolesText, ',') == [first, second]
    ensures Roles(rolesText) == {Text.Trim(Text.Java, first), Text.Trim(Text.Java, second)}
  {
    var pieces := Text.JavaSplit(rolesText, ',');
    assert pieces[0] == first && pieces[1] == second;
  }

  lemma SplitAdminUser()
    ensures Text.JavaSplit("ADMIN, USER", ',') == ["ADMIN", " USER"]
  {
    assert "ADMIN, USER" == "ADMIN" + [','] + " USER";
    SplitAtOnly("ADMIN", ',', " USER");
  }

  /** Text with a single `c`, and something after it, splits into the two sides of it. */
  lemma SplitAtOnly(before: string, c: char, after: string)
    requires c !in before && c !in after && after != []
    ensures Text.JavaSplit(before + [c] + after, c) == [before, after]
  {
    var s := before + [c] + after;
    var i := |before|;
    assert s[..i] == before && s[i + 1..] == after && s[i] == c;
    assert Text.FirstIndex(s, c) == i;
    assert Text.FirstIndex(after, c) == |after|;
    assert after[..|after|] == after;
    assert Text.SplitAll(after, c) == [after];
    assert Text.SplitAll(s, c) == [before, after];
  }

  lemma TrimLeadingSpace()
    ensures Text.Trim(Text.Java, " USER") == "USER"
  {
    assert " USER"[1..] == "USER";
    Text.TrimFixed(Text.Java, "USER");
  }

  /** `Boolean.parseBoolean`: "true" in any letter case, and nothing else. */
  predicate ParseBoolean(s: string) {
    |s| == 4 && s[0] in "tT" && s[1] in "rR" && s[2] in "uU" && s[3] in "eE"
  }

  /** `user` is the account the properties define for `name`. */
  predicate Describes(user: User, name: string, props: map<string, string>)
    reads user
  {
    && user.username == Some(name)
    && user.password == (if name + PasswordSuffix in props then Some(props[name + PasswordSuffix]) else None)
    && user.roles == Roles(Property(props, name + ".roles", "USER"))
    && user.enabled == ParseBoolean(Property(props, name + ".enabled", "true"))
  }

  /** `user` is a default account: its name, the encoding of its password under `salt`, its roles, enabled. */
  predicate IsDefault(user: User, digest: PasswordEncoding.Digest, name: string, password: string,
                      salt: seq<PasswordEncoding.Byte>, roles: set<string>)
    requires |salt| == PasswordEncoding.SaltLength
    reads user
  {
    && user.username == Some(name)
    && user.password == Some(PasswordEncoding.Encoding(digest, password, salt))
    && user.roles == roles && user.enabled
  }

  const AdminPassword: string := "admin123"
  const UserPassword: string := "user123"

  class UserRepository {
    var users: map<string, User>
    const digest: PasswordEncoding.Digest

    /** The two default accounts are present, with their passwords encoded under the given salts. */
    predicate HoldsDefaults(adminSalt: seq<PasswordEncoding.Byte>, userSalt: seq<PasswordEncoding.Byte>)
      requires |adminSalt| == PasswordEncoding.SaltLength && |userSalt| == PasswordEncoding.SaltLength
      reads this, users.Values
    {
      && "admin" in users && IsDefault(users["admin"], digest, "admin", AdminPassword, adminSalt, {"ADMIN", "USER"})
      && "user" in users && IsDefault(users["user"], digest, "user", UserPassword, userSalt, {"USER"})
    }

    /** Exactly the accounts the properties define, each as they define it. */
    predicate HoldsProperties(props: map<string, string>)
      reads this, users.Values
    {
      users.Keys == UserNames(props) && forall name | name in users :: Describes(users[name], name, props)
    }

    /** The repository of a fresh server: `loadUsers` on an empty map. */
    constructor (digest: PasswordEncoding.Digest, source: PropertiesSource,
                 adminSalt: seq<PasswordEncoding.Byte>, userSalt: seq<PasswordEncoding.Byte>)
      requires |adminSalt| == PasswordEncoding.SaltLength && |userSalt| == PasswordEncoding.SaltLength
      ensures this.digest == digest
      ensures !source.Found? ==> users.Keys == {"admin", "user"} && HoldsDefaults(adminSalt, userSalt)
      ensures source.Found? ==> HoldsProperties(source.props)
    {
      this.digest := digest;
      users := map[];
      new;
      LoadUsers(source, adminSalt, userSalt);
    }

    /**
     * `loadUsers`: without a file (or on an I/O error) the two defaults are
     * added; otherwise one fresh account per name the properties define is added.
     */
    method LoadUsers(source: PropertiesSource, adminSalt: seq<PasswordEncoding.Byte>, userSalt: seq<PasswordEncoding.Byte>)
      requires |adminSalt| == PasswordEncoding.SaltLength && |userSalt| == PasswordEncoding.SaltLength
      modifies this
      ensures !source.Found? ==> users.Keys == old(users).Keys + {"admin", "user"} && HoldsDefaults(adminSalt, userSalt)
      ensures source.Found? ==>
        && users.Keys == old(users).Keys + UserNames(source.props)
        && (forall name | name in UserNames(source.props) :: fresh(users[name]) && Describes(users[name], name, source.props))
        && (forall name | name in old(users) && name !in UserNames(source.props) :: users[name] == old(users)[name])
    {
      if !source.Found? {
        CreateDefaultUsers(adminSalt, userSalt);
        return;
      }
      var names := CollectUserNames(source.props);
      AddAccounts(names, source.props);
    }

    /** The second loop of `loadUsers`: a fresh account for each name, every other entry kept. */
    method AddAccounts(names: set<string>, props: map<string, string>)
      modifies this
      ensures users.Keys == old(users).Keys + names
      ensures forall name | name in names :: fresh(users[name]) && Describes(users[name], name, props)
      ensures forall name | name in old(users) && name !in names :: users[name] == old(users)[name]
    {
      var remaining := names;
      while remaining != {}
        invariant remaining <= names
        invariant users.Keys == old(users).Keys + (names - remaining)
        invariant forall name | name in names - remaining :: fresh(users[name]) && Describes(users[name], name, props)
        invariant forall name | name in old(users) && name !in names - remaining :: users[name] == old(users)[name]
        decreases remaining
      {
        var name :| name in remaining;
        AddAccount(name, props);
        remaining := remaining - {name};
      }
    }

    /** One turn of the second loop of `loadUsers`: the account for `name` is built and stored. */
    method AddAccount(name: string, props: map<string, string>)
      modifies this
      ensures name in users && users == old(users)[name := users[name]]
      ensures fresh(users[name]) && Describes(users[name], name, props)
    {
      var user := NewAccount(name, props);
      users := users[name := user];
    }

    /** The body of the second loop of `loadUsers`: one account built from the properties. */
    static method NewAccount(name: string, props: map<string, string>) returns (user: User)
      ensures fresh(user) && Describes(user, name, props)
    {
      var password := if name + PasswordSuffix in props then Some(props[name + PasswordSuffix]) else None;
      var roles := ParseRoles(Property(props, name + ".roles", "USER"));
      user := new User.WithRoles(Some(name), password, roles);
      user.SetEnabled(ParseBoolean(Property(props, name + ".enabled", "true")));
    }

    /** The first loop of `loadUsers`: the name of every key ending in ".password". */
    static method CollectUserNames(props: map<string, string>) returns (names: set<string>)
      ensures names == UserNames(props)
    {
      names := {};
      var keys := props.Keys;
      while keys != {}
        invariant keys <= props.Keys
        invariant names == set key | key in props.Keys - keys && Text.EndsWith(key, PasswordSuffix) :: UserNameOf(key)
        decreases keys
      {
        var key :| key in keys;
        if Text.EndsWith(key, PasswordSuffix) {
          names := names + {UserNameOf(key)};
        }
        keys := keys - {key};
      }
    }

    /** The roles loop of `loadUsers`: each piece of the split, trimmed, into a set. */
    static method ParseRoles(rolesText: string) returns (roles: set<string>)
      ensures roles == Roles(rolesText)
    {
      var pieces := Text.JavaSplit(rolesText, ',');
      roles := {};
      var i := 0;
      while i < |pieces|
        invariant 0 <= i <= |pieces|
        invariant roles == set j | 0 <= j < i :: Text.Trim(Text.Java, pieces[j])
      {
        roles := roles + {Text.Trim(Text.Java, pieces[i])};
        i := i + 1;
      }
    }

    /** `createDefaultUsers`: "admin" (ADMIN and USER) and "user" (USER), other entries untouched. */
    method CreateDefaultUsers(adminSalt: seq<PasswordEncoding.Byte>, userSalt: seq<PasswordEncoding.Byte>)
      requires |adminSalt| == PasswordEncoding.SaltLength && |userSalt| == PasswordEncoding.SaltLength
      modifies this
      ensures "admin" in users && "user" in users
      ensures users == old(users)["admin" := users["admin"]]["user" := users["user"]]
      ensures fresh(users["admin"]) && fresh(users["user"])
      ensures HoldsDefaults(adminSalt, userSalt)
    {
      var admin, user := DefaultAccounts(digest, adminSalt, userSalt);
      users := users["admin" := admin]["user" := user];
      assert "admin" != "user";
      assert users["admin"] == admin && users["user"] == user;
    }

    /** The two accounts `createDefaultUsers` builds before storing them. */
    static method DefaultAccounts(digest: PasswordEncoding.Digest, adminSalt: seq<PasswordEncoding.Byte>, userSalt: seq<PasswordEncoding.Byte>)
      returns (admin: User, user: User)
      requires |adminSalt| == PasswordEncoding.SaltLength && |userSalt| == PasswordEncoding.SaltLength
      ensures fresh(admin) && fresh(user)
      ensures IsDefault(admin, digest, "admin", AdminPassword, adminSalt, {"ADMIN", "USER"})
      ensures IsDefault(user, digest, "user", UserPassword, userSalt, {"USER"})
    {
      admin := AdminAccount(digest, adminSalt);
      user := DefaultAccount(digest, "user", UserPassword, userSalt);
      user.AddRole("USER");
    }

    /** The first half of `createDefaultUsers`: "admin" with the roles ADMIN and USER. */
    static method AdminAccount(digest: PasswordEncoding.Digest, salt: seq<PasswordEncoding.Byte>) returns (admin: User)
      requires |salt| == PasswordEncoding.SaltLength
      ensures fresh(admin)
      ensures IsDefault(admin, digest, "admin", AdminPassword, salt, {"ADMIN", "USER"})
    {
      admin := DefaultAccount(digest, "admin", AdminPassword, salt);
      admin.AddRole("ADMIN");
      admin.AddRole("USER");
    }

    /** The first lines of each half of `createDefaultUsers`: a new account with its name and encoded password. */
    static method DefaultAccount(digest: PasswordEncoding.Digest, name: string, password: string, salt: seq<PasswordEncoding.Byte>)
      returns (user: User)
      requires |salt| == PasswordEncoding.SaltLength
      ensures fresh(user)
      ensures user.username == Some(name) && user.password == Some(PasswordEncoding.Encoding(digest, password, salt))
      ensures user.roles == {} && user.enabled
    {
      user := new User();
      user.SetUsername(Some(name));
      var encoded := PasswordEncoding.Encode(digest, password, salt);
      user.SetPassword(Some(encoded));
    }

    /** `findByUsername`: the account stored under the name, if any. */
    function FindByUsername(username: string): (r: Option<User>)
      reads this
      ensures r.Some? <==> username in users
      ensures r.Some? ==> r.value == users[username]
    {
      if username in users then Some(users[username]) else None
    }

    /** Who `authenticate` lets in: an enabled account whose stored encoding matches the password. */
    predicate Accepts(username: string, password: string)
      reads this, users.Values
    {
      username in users && users[username].enabled
      && PasswordEncoding.IsMatch(digest, Some(password), users[username].password)
    }

    /** `authenticate`: the account when `Accepts` holds, `null` otherwise; nothing changes. */
    method Authenticate(username: string, password: string) returns (r: Option<User>)
      ensures r.Some? <==> Accepts(username, password)
      ensures r.Some? ==> r.value == users[username]
    {
      var user := FindByUsername(username);
      if user.None? || !user.value.enabled {
        return None;
      }
      var ok := PasswordEncoding.Matches(digest, Some(password), user.value.password);
      if ok {
        return user;
      }
      return None;
    }

    /** `addUser`: the entry for the user's name is set; every other entry stays. */
    method AddUser(user: User)
      requires user.username.Some?
      modifies this
      ensures users == old(users)[user.username.value := user]
    {
      users := users[user.username.value := user];
    }

    /** The default accounts accept their default passwords. */
    lemma DefaultsAccepted(adminSalt: seq<PasswordEncoding.Byte>, userSalt: seq<PasswordEncoding.Byte>)
      requires |adminSalt| == PasswordEncoding.SaltLength && |userSalt| == PasswordEncoding.SaltLength
      requires HoldsDefaults(adminSalt, userSalt)
      ensures Accepts("admin", AdminPassword) && Accepts("user", UserPassword)
    {
      PasswordEncoding.MatchesOwnEncoding(digest, AdminPassword, adminSalt);
      PasswordEncoding.MatchesOwnEncoding(digest, UserPassword, userSalt);
    }

    /** With a collision-free digest, a default account accepts no other password. */
    lemma DefaultsRejectOthers(adminSalt: seq<PasswordEncoding.Byte>, userSalt: seq<PasswordEncoding.Byte>, password: string)
      requires |adminSalt| == PasswordEncoding.SaltLength && |userSalt| == PasswordEncoding.SaltLength
      requires HoldsDefaults(adminSalt, userSalt)
      requires forall m1, m2 :: digest(m1) == digest(m2) ==> m1 == m2
      ensures Accepts("user", password) <==> password == UserPassword
      ensures Accepts("admin", password) <==> password == AdminPassword
    {
      PasswordEncoding.OnlyThePasswordMatches(digest, password, AdminPassword, adminSalt);
      PasswordEncoding.OnlyThePasswordMatches(digest, password, UserPassword, userSalt);
    }
  }
}
