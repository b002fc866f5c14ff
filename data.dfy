/** The front end's own user map (Data.go): registration, deletion, password lookup. */
module Data {
  import Users

  class Directory {
    var userdata: Users.Table

    constructor ()
      ensures userdata == map[]
    {
      userdata := map[];
    }

    /** addUser: 0 if the name is taken, otherwise 1 after inserting a fresh account. */
    method AddUser(usrname: string, pwd: string) returns (code: int)
      modifies this
      ensures code == (if usrname in old(userdata) then 0 else 1)
      ensures userdata == Users.Register(old(userdata), usrname, pwd).table
    {
      if usrname in userdata {
        return 0;
      }
      var usr := Users.User(usrname, pwd, [], {});
      userdata := userdata[usrname := usr];
      return 1;
    }

    /** deleteUser: always 1. */
    method DeleteUser(username: string) returns (code: int)
      modifies this
      ensures code == 1
      ensures userdata == Users.DeleteUser(old(userdata), username)
    {
      userdata := userdata - {username};
      return 1;
    }

    /** getPassword. */
    method GetPassword(usrname: string) returns (ok: bool, password: string)
      ensures (ok, password) == Users.GetPassword(userdata, usrname)
    {
      if usrname !in userdata {
        return false, "No such User";
      }
      return true, userdata[usrname].password;
    }
  }
}
