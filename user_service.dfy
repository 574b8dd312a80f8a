/**
 * The account repository (src/services/userService.js) over the `users`
 * collection: registration with a unique email, login by literal email and
 * password equality, and lookup by id.
 */
module UserService {
  import opened DocumentStore

  /** An account record. `isAdmin` is `None` when the stored record has no such field. */
  datatype User = User(
    email: string,
    password: string,
    pseudo: string,
    isAdmin: Option<bool>,
    avatar: string,
    createdAt: string)

  /** The avatar service URL that the pseudo is appended to. */
  const AvatarPrefix: string := "https://api.dicebear.com/7.x/avataaars/svg?seed="

  /** The avatar of a new account: the prefix followed by the pseudo, unencoded. */
  function AvatarFor(pseudo: string): (r: string)
    ensures |r| == |AvatarPrefix| + |pseudo|
    ensures r[..|AvatarPrefix|] == AvatarPrefix && r[|AvatarPrefix|..] == pseudo
  {
    AvatarPrefix + pseudo
  }

  /** The avatar depends on the pseudo alone, and different pseudos give different avatars. */
  lemma AvatarDeterminesPseudo(p: string, q: string)
    ensures AvatarFor(p) == AvatarFor(q) <==> p == q
  {
    if AvatarFor(p) == AvatarFor(q) {
      calc {
        p;
        AvatarFor(p)[|AvatarPrefix|..];
        AvatarFor(q)[|AvatarPrefix|..];
        q;
      }
    }
  }

  /** The record a registration writes. */
  function NewAccount(email: string, password: string, pseudo: string, now: string): (r: User)
    ensures r.email == email && r.password == password && r.pseudo == pseudo
    ensures r.isAdmin == Some(false)
    ensures r.avatar == AvatarFor(pseudo)
    ensures r.createdAt == now
  {
    User(email, password, pseudo, Some(false), AvatarFor(pseudo), now)
  }

  /** The login query's filter: exactly equal email and password. */
  predicate Matches(u: User, email: string, password: string) {
    u.email == email && u.password == password
  }

  /** The registration query: some stored account already has this email. */
  function EmailInUse(db: Collection<User>, email: string): (r: bool)
    reads db
    requires db.Valid()
    ensures r <==> exists id :: id in db.docs && db.docs[id].email == email
  {
    var hits := db.Where((u: User) => u.email == email);
    assert forall id :: id in db.docs && db.docs[id].email == email ==> Doc(id, db.docs[id]) in hits;
    assert |hits| > 0 ==> hits[0] in hits && db.docs[hits[0].id].email == email;
    |hits| > 0
  }

  /** No two stored accounts share an email. */
  ghost predicate EmailsUnique(m: map<Id, User>) {
    forall i, j :: i in m && j in m && m[i].email == m[j].email ==> i == j
  }

  /** `loginUserInFirestore`: the first account, in the store's order, with this email and password. */
  function LoginUser(db: Collection<User>, email: string, password: string, fault: bool): (r: Result<Doc<User>>)
    reads db
    requires db.Valid()
    ensures r.Success? <==> !fault && exists id :: id in db.docs && Matches(db.docs[id], email, password)
    ensures r.Failure? ==> r.error == if fault then StoreFailure else InvalidCredentials
    ensures r.Success? ==> r.value.id in db.docs && db.docs[r.value.id] == r.value.data
    ensures r.Success? ==> r.value.data.email == email && r.value.data.password == password
    ensures r.Success? ==> forall id :: id in db.docs && Matches(db.docs[id], email, password) ==> r.value.id <= id
  {
    if fault then Failure(StoreFailure)
    else
      var hits := db.Where((u: User) => Matches(u, email, password));
      assert forall id :: id in db.docs && Matches(db.docs[id], email, password) ==> Doc(id, db.docs[id]) in hits;
      if |hits| == 0 then Failure(InvalidCredentials)
      else
        assert hits[0] in hits;
        assert forall id :: id in db.docs && Matches(db.docs[id], email, password) ==> hits[0].id <= id by {
          forall id | id in db.docs && Matches(db.docs[id], email, password)
            ensures hits[0].id <= id
          {
            var j :| 0 <= j < |hits| && hits[j] == Doc(id, db.docs[id]);
            assert j == 0 || hits[0].id < hits[j].id;
          }
        }
        Success(hits[0])
  }

  /** `getUserById`: the account when present; `None` when absent or when the lookup fails. */
  function GetUserById(db: Collection<User>, id: Id, fault: bool): (r: Option<Doc<User>>)
    reads db
    ensures r.Some? <==> !fault && id in db.docs
    ensures r.Some? ==> r.value == Doc(id, db.docs[id])
  {
    if !fault && id in db.docs then Some(Doc(id, db.docs[id])) else None
  }

  /**
   * `registerUserInFirestore`: refuses an email already in use; otherwise adds
   * one non-admin account and returns it with its new id.
   */
  method RegisterUser(db: Collection<User>, email: string, password: string, pseudo: string,
                      now: string, fault: bool) returns (r: Result<Doc<User>>)
    requires db.Valid()
    modifies db
    ensures db.Valid()
    ensures r.Failure? <==> fault || old(EmailInUse(db, email))
    ensures r.Failure? ==> r.error == if fault then StoreFailure else DuplicateEmail
    ensures r.Failure? ==> db.docs == old(db.docs) && db.nextId == old(db.nextId)
    ensures r.Success? ==> r.value == Doc(old(db.nextId), NewAccount(email, password, pseudo, now))
    ensures r.Success? ==> r.value.id !in old(db.docs) && db.docs == old(db.docs)[r.value.id := r.value.data]
    ensures r.Success? ==> db.nextId == old(db.nextId) + 1
    ensures old(EmailsUnique(db.docs)) ==> EmailsUnique(db.docs)
    ensures r.Success? ==> LoginUser(db, email, password, false) == Success(r.value)
  {
    if fault {
      return Failure(StoreFailure);
    }
    if EmailInUse(db, email) {
      return Failure(DuplicateEmail);
    }
    var account := NewAccount(email, password, pseudo, now);
    var id := db.Add(account);
    r := Success(Doc(id, account));
    assert forall k :: k in db.docs && Matches(db.docs[k], email, password) ==> k == id;
  }
}
