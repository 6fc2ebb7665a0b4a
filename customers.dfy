/**
 * The customer account handlers of routes/users.js over the table
 * `tbl_customers`: register, list, get and update the caller's profile, and
 * get, update and delete a customer by id. Each handler is one atomic step on
 * an in-memory table keyed by `customer_id`.
 */
module Customers {
  import opened Wrappers
  import Auth

  /** What bcrypt.hash returns; the `password` column holds this, never the plaintext. */
  datatype PasswordHash = PasswordHash(encoded: string)

  /** One row of `tbl_customers`. Columns a PUT may set to NULL are options. */
  datatype Customer = Customer(
    username: string,
    password: PasswordHash,
    email: Option<string>,
    phone: Option<string>,
    address: Option<string>,
    fullName: Option<string>,
    createdAt: int)

  /** The table, keyed by `customer_id`. */
  type Rows = map<nat, Customer>

  /** The JSON body of POST /register; each field may be absent or null. */
  datatype RegisterBody = RegisterBody(
    username: Option<string>,
    password: Option<string>,
    email: Option<string>,
    phone: Option<string>,
    address: Option<string>,
    fullName: Option<string>)

  /** The JSON body of PUT /profile and PUT /:id. */
  datatype ContactFields = ContactFields(
    fullName: Option<string>,
    email: Option<string>,
    phone: Option<string>,
    address: Option<string>)

  /** The claims signed into the token that registration returns. */
  datatype TokenClaims = TokenClaims(customerId: nat, username: string, issuedAt: int, expiresAt: int)

  /** The lifetime `expiresIn: '7d'`, in seconds. */
  const TokenLifetime: nat := 7 * 24 * 60 * 60

  // Read projections. None of them has a password field.

  /** The columns GET / and GET /:id select. */
  datatype CustomerView = CustomerView(
    customerId: nat,
    username: string,
    fullName: Option<string>,
    email: Option<string>,
    phone: Option<string>,
    address: Option<string>,
    createdAt: int)

  /** The columns GET /profile selects (no `created_at`). */
  datatype ProfileView = ProfileView(
    customerId: nat,
    username: string,
    fullName: Option<string>,
    email: Option<string>,
    phone: Option<string>,
    address: Option<string>)

  /** The `data` of a successful registration. */
  datatype RegisteredView = RegisteredView(customerId: nat, username: string, email: string, fullName: string)

  /** The `data` echoed by PUT /:id: the id and the body's fields as sent. */
  datatype UpdateEcho = UpdateEcho(customerId: nat, fields: ContactFields)

  /** The `data` of a successful delete. */
  datatype DeletedEcho = DeletedEcho(customerId: nat, username: string)

  datatype RegisterResult =
    | Created(token: TokenClaims, data: RegisteredView)
    | MissingFields
    | DuplicateUsername
    | DuplicateEmail
  {
    function Status(): nat { if Created? then 201 else 400 }
  }

  /** A handler that looks one row up: found (200) or 404. */
  datatype Lookup<T> = Found(data: T) | NotFound
  {
    function Status(): nat { if Found? then 200 else 404 }
  }

  // ---------------------------------------------------------------------------
  // Predicates over the table

  /** JavaScript truthiness of a body field: absent, null and "" are falsy. */
  predicate Truthy(v: Option<string>)
  {
    v.Some? && v.value != []
  }

  /** `v || null` */
  function OrNull(v: Option<string>): Option<string>
  {
    if Truthy(v) then v else None
  }

  /** The first check of POST /register: username, password and email all truthy. */
  predicate RequiredPresent(body: RegisterBody)
  {
    Truthy(body.username) && Truthy(body.password) && Truthy(body.email)
  }

  /** `SELECT * FROM tbl_customers WHERE username = ?` finds a row. */
  predicate UsernameInUse(rows: Rows, username: string)
  {
    exists id :: id in rows && rows[id].username == username
  }

  /** `SELECT * FROM tbl_customers WHERE email = ?` finds a row. */
  predicate EmailInUse(rows: Rows, email: string)
  {
    exists id :: id in rows && rows[id].email == Some(email)
  }

  /** No two rows share a username. */
  predicate UsernamesUnique(rows: Rows)
  {
    forall i, j :: i in rows && j in rows && rows[i].username == rows[j].username ==> i == j
  }

  /** No two rows share a non-NULL email. */
  predicate EmailsUnique(rows: Rows)
  {
    forall i, j :: i in rows && j in rows && rows[i].email.Some? && rows[i].email == rows[j].email ==> i == j
  }

  /** The row INSERTed by POST /register. */
  function NewCustomer(body: RegisterBody, hash: string -> PasswordHash, now: int): Customer
    requires RequiredPresent(body)
  {
    Customer(
      body.username.value,
      hash(body.password.value),
      body.email,
      OrNull(body.phone),
      OrNull(body.address),
      Some(if Truthy(body.fullName) then body.fullName.value else body.username.value),
      now)
  }

  /** `SET full_name = ?, email = ?, phone = ?, address = ?`: the body's values as sent, NULL when absent. */
  function WithContact(c: Customer, fields: ContactFields): Customer
  {
    c.(fullName := fields.fullName, email := fields.email, phone := fields.phone, address := fields.address)
  }

  function ViewOf(id: nat, c: Customer): CustomerView
  {
    CustomerView(id, c.username, c.fullName, c.email, c.phone, c.address, c.createdAt)
  }

  function ProfileOf(id: nat, c: Customer): ProfileView
  {
    ProfileView(id, c.username, c.fullName, c.email, c.phone, c.address)
  }

  // ---------------------------------------------------------------------------
  // Uniqueness across the table

  /** Inserting a row whose username is not in use keeps usernames unique. */
  lemma InsertKeepsUsernamesUnique(rows: Rows, id: nat, c: Customer)
    requires UsernamesUnique(rows)
    requires id !in rows && !UsernameInUse(rows, c.username)
    ensures UsernamesUnique(rows[id := c])
  {
  }

  /** Inserting a row whose email is not in use keeps emails unique. */
  lemma InsertKeepsEmailsUnique(rows: Rows, id: nat, c: Customer)
    requires EmailsUnique(rows)
    requires id !in rows && c.email.Some? && !EmailInUse(rows, c.email.value)
    ensures EmailsUnique(rows[id := c])
  {
  }

  /** Overwriting the contact fields of a row never changes a username, so uniqueness survives. */
  lemma ContactUpdateKeepsUsernamesUnique(rows: Rows, id: nat, fields: ContactFields)
    requires UsernamesUnique(rows) && id in rows
    ensures UsernamesUnique(rows[id := WithContact(rows[id], fields)])
  {
  }

  /** Removing a row keeps usernames unique. */
  lemma DeleteKeepsUsernamesUnique(rows: Rows, id: nat)
    requires UsernamesUnique(rows)
    ensures UsernamesUnique(rows - {id})
  {
  }

  /**
   * Email uniqueness is not an invariant of the table: the contact update writes
   * `email` without looking for it elsewhere, so copying another row's email
   * into a table whose emails were unique leaves two rows with the same email.
   */
  lemma ContactUpdateCanDuplicateEmail(rows: Rows, id: nat, other: nat, fields: ContactFields)
    requires EmailsUnique(rows)
    requires id in rows && other in rows && id != other
    requires rows[other].email.Some? && fields.email == rows[other].email
    ensures !EmailsUnique(rows[id := WithContact(rows[id], fields)])
  {
    var after := rows[id := WithContact(rows[id], fields)];
    assert after[id].email == after[other].email;
  }

  /** With unique usernames, a username picks out at most one row. */
  lemma {:induction false} AtMostOneRowPerUsername(rows: Rows, username: string)
    requires UsernamesUnique(rows)
    ensures |set id | id in rows && rows[id].username == username| <= 1
  {
    var matching := set id | id in rows && rows[id].username == username;
    if matching != {} {
      var x :| x in matching;
      assert matching == {x};
    }
  }

  // ---------------------------------------------------------------------------
  // ORDER BY created_at DESC

  /** Newest first: `created_at` never increases along the list. */
  predicate NewestFirst(views: seq<CustomerView>)
  {
    forall i, j :: 0 <= i < j < |views| ==> views[i].createdAt >= views[j].createdAt
  }

  function Ids(views: seq<CustomerView>): set<nat>
  {
    set v | v in views :: v.customerId
  }

  /** Places `v` in a newest-first list, before the first row that is not newer. */
  function InsertNewestFirst(views: seq<CustomerView>, v: CustomerView): (r: seq<CustomerView>)
    ensures |r| == |views| + 1
    ensures forall x :: x in r <==> x in views || x == v
    ensures multiset(r) == multiset(views) + multiset{v}
    ensures NewestFirst(views) ==> NewestFirst(r)
  {
    if views == [] || v.createdAt >= views[0].createdAt then [v] + views
    else
      var rest := InsertNewestFirst(views[1..], v);
      assert views == [views[0]] + views[1..];
      if NewestFirst(views) then
        HeadIsNewest(views);
        NewestAhead(views[0], rest);
        [views[0]] + rest
      else
        [views[0]] + rest
  }

  /** Inserting a row adds its id to the ids of the list. */
  lemma IdsAfterInsert(views: seq<CustomerView>, v: CustomerView)
    ensures Ids(InsertNewestFirst(views, v)) == Ids(views) + {v.customerId}
  {
  }

  /** The rows of `rows` outside `pending`, projected, newest first. */
  ghost predicate ListedExactly(rows: Rows, pending: set<nat>, views: seq<CustomerView>)
  {
    && pending <= rows.Keys
    && Ids(views) == rows.Keys - pending
    && |views| == |rows.Keys - pending|
    && NewestFirst(views)
    && forall v :: v in views ==> v.customerId in rows && v == ViewOf(v.customerId, rows[v.customerId])
  }

  /** Moving one pending row into the list keeps it an exact, newest-first listing of the rows done so far. */
  lemma ListStep(rows: Rows, pending: set<nat>, views: seq<CustomerView>, id: nat)
    requires ListedExactly(rows, pending, views) && id in pending
    ensures ListedExactly(rows, pending - {id}, InsertNewestFirst(views, ViewOf(id, rows[id])))
  {
    var v := ViewOf(id, rows[id]);
    IdsAfterInsert(views, v);
    assert rows.Keys - (pending - {id}) == (rows.Keys - pending) + {id};
  }

  /** In a newest-first list the head is at least as new as every later row, and the tail is newest first. */
  lemma HeadIsNewest(views: seq<CustomerView>)
    requires views != [] && NewestFirst(views)
    ensures NewestFirst(views[1..])
    ensures forall x :: x in views[1..] ==> views[0].createdAt >= x.createdAt
  {
    forall x | x in views[1..] ensures views[0].createdAt >= x.createdAt {
      var k :| 0 <= k < |views[1..]| && views[1..][k] == x;
      assert views[k + 1] == x;
    }
  }

  /** Putting a row in front of a newest-first list that it is at least as new as keeps it newest first. */
  lemma NewestAhead(head: CustomerView, rest: seq<CustomerView>)
    requires NewestFirst(rest)
    requires forall x :: x in rest ==> head.createdAt >= x.createdAt
    ensures NewestFirst([head] + rest)
  {
    var all := [head] + rest;
    forall i, j | 0 <= i < j < |all| ensures all[i].createdAt >= all[j].createdAt {
      assert all[j] == rest[j - 1];
      if i == 0 {
        assert rest[j - 1] in rest;
      } else {
        assert all[i] == rest[i - 1];
      }
    }
  }

  // ---------------------------------------------------------------------------
  // The table and its handlers

  class CustomerTable {
    var rows: Rows
    /** The next AUTO_INCREMENT value. */
    var nextId: nat

    /** Every id was handed out before, registered usernames are non-empty and unique. */
    ghost predicate Valid()
      reads this
    {
      && (forall id :: id in rows ==> id < nextId)
      && (forall id :: id in rows ==> rows[id].username != [])
      && UsernamesUnique(rows)
    }

    constructor ()
      ensures Valid() && rows == map[] && nextId == 1
    {
      rows := map[];
      nextId := 1;
    }

    /**
     * POST /register. Checks required fields, then the username, then the email;
     * only then inserts the row and signs a token for it. `hash` stands for
     * bcrypt with cost 10 and `now` for NOW() and the token's issue time.
     */
    method Register(body: RegisterBody, hash: string -> PasswordHash, now: int) returns (r: RegisterResult)
      requires Valid()
      modifies this
      ensures Valid()
      ensures r.MissingFields? <==> !RequiredPresent(body)
      ensures r.DuplicateUsername? <==> RequiredPresent(body) && UsernameInUse(old(rows), body.username.value)
      ensures r.DuplicateEmail? <==>
                RequiredPresent(body) && !UsernameInUse(old(rows), body.username.value)
                && EmailInUse(old(rows), body.email.value)
      ensures !r.Created? ==> rows == old(rows) && nextId == old(nextId)
      ensures r.Created? ==>
                var id := r.data.customerId;
                && RequiredPresent(body)
                && id == old(nextId) && id !in old(rows)
                && rows.Keys == old(rows).Keys + {id}
                && (forall k :: k in old(rows) ==> rows[k] == old(rows)[k])
                && rows[id].username == body.username.value
                && rows[id].password == hash(body.password.value)
                && rows[id].email == body.email
                && rows[id].phone == (if Truthy(body.phone) then body.phone else None)
                && rows[id].address == (if Truthy(body.address) then body.address else None)
                && rows[id].fullName == Some(if Truthy(body.fullName) then body.fullName.value else body.username.value)
                && rows[id].createdAt == now
                && r.data == RegisteredView(id, body.username.value, body.email.value, rows[id].fullName.value)
                && r.token == TokenClaims(id, body.username.value, now, now + TokenLifetime)
      ensures EmailsUnique(old(rows)) ==> EmailsUnique(rows)
    {
      if !RequiredPresent(body) {
        return MissingFields;
      }
      var username, email := body.username.value, body.email.value;
      if UsernameInUse(rows, username) {
        return DuplicateUsername;
      }
      if EmailInUse(rows, email) {
        return DuplicateEmail;
      }
      var id := nextId;
      var row := NewCustomer(body, hash, now);
      InsertKeepsUsernamesUnique(rows, id, row);
      if EmailsUnique(rows) {
        InsertKeepsEmailsUnique(rows, id, row);
      }
      rows := rows[id := row];
      nextId := nextId + 1;
      var token := TokenClaims(id, username, now, now + TokenLifetime);
      r := Created(token, RegisteredView(id, username, email, row.fullName.value));
    }

    /** GET /: every row, projected without the password, newest first. */
    method List() returns (views: seq<CustomerView>)
      ensures NewestFirst(views)
      ensures Ids(views) == rows.Keys && |views| == |rows|
      ensures forall v :: v in views ==> v.customerId in rows && v == ViewOf(v.customerId, rows[v.customerId])
    {
      views := [];
      var pending := rows.Keys;
      while pending != {}
        invariant ListedExactly(rows, pending, views)
        decreases pending
      {
        var id :| id in pending;
        ListStep(rows, pending, views, id);
        views := InsertNewestFirst(views, ViewOf(id, rows[id]));
        pending := pending - {id};
      }
    }

    /** GET /profile: the row of the token's `customer_id`; a token without one finds nothing. */
    method GetProfile(user: Auth.Claims) returns (r: Lookup<ProfileView>)
      ensures r.Found? <==> user.customerId.Some? && user.customerId.value in rows
      ensures r.Found? ==> r.data == ProfileOf(user.customerId.value, rows[user.customerId.value])
    {
      if user.customerId.Some? && user.customerId.value in rows {
        var id := user.customerId.value;
        r := Found(ProfileOf(id, rows[id]));
      } else {
        r := NotFound;
      }
    }

    /**
     * PUT /profile: the UPDATE runs without an existence check and the answer is
     * always 200; a missing row is simply not changed. The email is not checked.
     */
    method PutProfile(user: Auth.Claims, fields: ContactFields) returns (status: nat)
      requires Valid()
      modifies this
      ensures Valid()
      ensures status == 200
      ensures nextId == old(nextId)
      ensures user.customerId.Some? && user.customerId.value in old(rows) ==>
                var id := user.customerId.value;
                rows == old(rows)[id := WithContact(old(rows)[id], fields)]
      ensures !(user.customerId.Some? && user.customerId.value in old(rows)) ==> rows == old(rows)
    {
      if user.customerId.Some? && user.customerId.value in rows {
        var id := user.customerId.value;
        ContactUpdateKeepsUsernamesUnique(rows, id, fields);
        rows := rows[id := WithContact(rows[id], fields)];
      }
      status := 200;
    }

    /** GET /:id */
    method GetById(id: nat) returns (r: Lookup<CustomerView>)
      ensures r.Found? <==> id in rows
      ensures r.Found? ==> r.data == ViewOf(id, rows[id])
    {
      if id in rows {
        r := Found(ViewOf(id, rows[id]));
      } else {
        r := NotFound;
      }
    }

    /**
     * PUT /:id: 404 and no change for an absent id; otherwise the four contact
     * columns of that one row are overwritten, unchecked, and the body is echoed.
     */
    method PutById(id: nat, fields: ContactFields) returns (r: Lookup<UpdateEcho>)
      requires Valid()
      modifies this
      ensures Valid()
      ensures nextId == old(nextId)
      ensures r.NotFound? <==> id !in old(rows)
      ensures r.NotFound? ==> rows == old(rows)
      ensures r.Found? ==>
                && rows == old(rows)[id := WithContact(old(rows)[id], fields)]
                && rows[id].username == old(rows)[id].username
                && rows[id].password == old(rows)[id].password
                && rows[id].createdAt == old(rows)[id].createdAt
                && r.data == UpdateEcho(id, fields)
    {
      if id !in rows {
        return NotFound;
      }
      ContactUpdateKeepsUsernamesUnique(rows, id, fields);
      rows := rows[id := WithContact(rows[id], fields)];
      r := Found(UpdateEcho(id, fields));
    }

    /** DELETE /:id: 404 and no change for an absent id; otherwise that one row goes and its username is echoed. */
    method DeleteById(id: nat) returns (r: Lookup<DeletedEcho>)
      requires Valid()
      modifies this
      ensures Valid()
      ensures nextId == old(nextId)
      ensures r.NotFound? <==> id !in old(rows)
      ensures r.NotFound? ==> rows == old(rows)
      ensures r.Found? ==> rows == old(rows) - {id} && r.data == DeletedEcho(id, old(rows)[id].username)
    {
      if id !in rows {
        return NotFound;
      }
      var username := rows[id].username;
      DeleteKeepsUsernamesUnique(rows, id);
      rows := rows - {id};
      r := Found(DeletedEcho(id, username));
    }
  }

  // ---------------------------------------------------------------------------
  // Scenarios checked against the handler contracts

  /** Registering the same username twice: the second attempt is refused and one row holds the name. */
  method SameUsernameTwice(hash: string -> PasswordHash)
  {
    var table := new CustomerTable();
    var first := table.Register(RegisterBody(Some("ann"), Some("pw1"), Some("a@x"), None, None, None), hash, 0);
    assert first.Created?;
    assert first.data.fullName == "ann";
    assert UsernameInUse(table.rows, "ann") by {
      assert table.rows[first.data.customerId].username == "ann";
    }
    var second := table.Register(RegisterBody(Some("ann"), Some("pw2"), Some("b@x"), None, None, None), hash, 1);
    assert second == DuplicateUsername && second.Status() == 400;
  }

  /** Two customers registered with different emails end up sharing one after PUT /:id. */
  method SharedEmailAfterPut(hash: string -> PasswordHash)
  {
    var table := new CustomerTable();
    var ann := table.Register(RegisterBody(Some("ann"), Some("pw1"), Some("a@x"), None, None, None), hash, 0);
    var bob := table.Register(RegisterBody(Some("bob"), Some("pw2"), Some("b@x"), None, None, None), hash, 1);
    assert bob.Created? by {
      assert !UsernameInUse(map[ann.data.customerId := table.rows[ann.data.customerId]], "bob");
    }
    assert EmailsUnique(table.rows);
    var put := table.PutById(bob.data.customerId, ContactFields(None, Some("a@x"), None, None));
    assert put.Found?;
    assert !EmailsUnique(table.rows) by {
      assert table.rows[ann.data.customerId].email == table.rows[bob.data.customerId].email;
    }
  }
}
