/**
 * An account of the translation API (model/User.java): a name, the stored
 * password encoding, a set of roles and an enabled flag, all changed in place.
 * Java's `null` for an unset name or password is `None`.
 */
module Users {
  import opened Wrappers

  class User {
    var username: Option<string>
    var password: Option<string>   // the salted hash, as PasswordEncoder encodes it
    var roles: set<string>
    var enabled: bool

    /** The default constructor: no name or password yet, no roles, enabled. */
    constructor ()
      ensures username == None && password == None
      ensures roles == {} && enabled
    {
      username, password := None, None;
      roles, enabled := {}, true;
    }

    /** The three-argument constructor: keeps what it is given, and is enabled. */
    constructor WithRoles(username: Option<string>, password: Option<string>, roles: set<string>)
      ensures this.username == username && this.password == password
      ensures this.roles == roles && enabled
    {
      this.username, this.password := username, password;
      this.roles, enabled := roles, true;
    }

    /** `hasRole(role)`. */
    predicate HasRole(role: string)
      reads this
    {
      role in roles
    }

    /** `addRole(role)`: the role is held afterwards, and no other role changes. */
    method AddRole(role: string)
      modifies this
      ensures HasRole(role)
      ensures forall r :: r != role ==> (HasRole(r) <==> old(HasRole(r)))
      ensures roles == old(roles) + {role}
      ensures username == old(username) && password == old(password) && enabled == old(enabled)
    {
      roles := roles + {role};
    }

    method SetUsername(username: Option<string>)
      modifies this
      ensures this.username == username
      ensures password == old(password) && roles == old(roles) && enabled == old(enabled)
    {
      this.username := username;
    }

    method SetPassword(password: Option<string>)
      modifies this
      ensures this.password == password
      ensures username == old(username) && roles == old(roles) && enabled == old(enabled)
    {
      this.password := password;
    }

    method SetRoles(roles: set<string>)
      modifies this
      ensures this.roles == roles
      ensures username == old(username) && password == old(password) && enabled == old(enabled)
    {
      this.roles := roles;
    }

    /** `setEnabled`: only the flag changes. */
    method SetEnabled(enabled: bool)
      modifies this
      ensures this.enabled == enabled
      ensures username == old(username) && password == old(password) && roles == old(roles)
    {
      this.enabled := enabled;
    }
  }
}
