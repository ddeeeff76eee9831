/**
 * The library dashboard page (frontend/app/dashboard/page.js): the mapping
 * of server records to display records, the list transforms its handlers
 * apply, the rule that picks the table body's rows, the card title and the
 * tab dispatch, and the page's state cells with the handlers that update
 * them. Every network call is an abstract result passed in.
 */
module Dashboard {
  import opened Wrappers

  // ---------------------------------------------------------------------------
  // Records
  // ---------------------------------------------------------------------------

  /** A book as the server sends it (`GET /books`, `POST /books`). */
  datatype ServerBook = ServerBook(id: int, title: string, author: string, isBorrowed: bool)

  /** The fields of the `/users` payload that `fetchUserData` reads. */
  datatype ServerUser = ServerUser(username: string, isAdmin: bool)

  /**
   * What a listed book's `status` property holds: a label from the book
   * mapping, a boolean written by the status handler, or nothing at all for a
   * record appended as the server returned it.
   */
  datatype Status = Label(text: string) | Flag(value: bool) | Unset

  /** A book in the `books` state cell. */
  datatype Book = Book(id: int, title: string, author: string, status: Status)

  /** The `user` state cell's value. */
  datatype UserData = UserData(name: string, role: string)

  /** The `newBook` state cell: the add-book form. */
  datatype NewBook = NewBook(title: string, author: string)

  /** The outcome of one `fetch`: a parsed body, or a failure (thrown error or `!response.ok`). */
  datatype Fetched<T> = Fetched(body: T) | FetchFailed

  // ---------------------------------------------------------------------------
  // Record mappings
  // ---------------------------------------------------------------------------

  /** One server book as `fetchBooks` maps it. */
  function FromServer(b: ServerBook): (r: Book)
    ensures r.id == b.id && r.title == b.title && r.author == b.author
    ensures r.status == Label("Checked Out") <==> b.isBorrowed
    ensures r.status == Label("Available") <==> !b.isBorrowed
  {
    Book(b.id, b.title, b.author, Label(if b.isBorrowed then "Checked Out" else "Available"))
  }

  /** The list `fetchBooks` resolves to: the payload mapped in order. */
  function FetchedBooks(data: seq<ServerBook>): (r: seq<Book>)
    ensures |r| == |data|
    ensures forall i :: 0 <= i < |data| ==> r[i] == FromServer(data[i])
  {
    if data == [] then [] else [FromServer(data[0])] + FetchedBooks(data[1..])
  }

  /** The object `fetchUserData` resolves to. */
  function ToUserData(u: ServerUser): (r: UserData)
    ensures r.name == u.username
    ensures r.role == "Admin" <==> u.isAdmin
    ensures r.role == "User" <==> !u.isAdmin
  {
    UserData(u.username, if u.isAdmin then "Admin" else "User")
  }

  /**
   * The record `handleAddBook` appends: the body of `POST /books` as it is,
   * with no `status` property.
   */
  function AsReturned(b: ServerBook): (r: Book)
    ensures r.id == b.id && r.title == b.title && r.author == b.author
    ensures r.status == Unset
  {
    Book(b.id, b.title, b.author, Unset)
  }

  // ---------------------------------------------------------------------------
  // The status update
  // ---------------------------------------------------------------------------

  /**
   * `books.map(book => book.id === id ? { ...book, status } : book)`: only
   * the status of books with that id changes.
   */
  function WithStatus(books: seq<Book>, id: int, status: Status): (r: seq<Book>)
    ensures |r| == |books|
    ensures forall i :: 0 <= i < |books| && books[i].id != id ==> r[i] == books[i]
    ensures forall i :: 0 <= i < |books| && books[i].id == id ==> r[i] == books[i].(status := status)
  {
    if books == [] then []
    else [if books[0].id == id then books[0].(status := status) else books[0]]
           + WithStatus(books[1..], id, status)
  }

  /** Setting the same status twice is the same as setting it once. */
  lemma WithStatusIdempotent(books: seq<Book>, id: int, status: Status)
    ensures WithStatus(WithStatus(books, id, status), id, status) == WithStatus(books, id, status)
  {
  }

  /** `newStatus` in `handleUpdateStatus` as written: `currentStatus === true`. */
  function NewStatus(currentStatus: Status): (r: Status)
    ensures r == Flag(true) <==> currentStatus == Flag(true)
    ensures r.Flag?
  {
    Flag(currentStatus == Flag(true))
  }

  /** No listed book holds the boolean `true` as its status. */
  predicate NoTrueFlag(books: seq<Book>)
  {
    forall i :: 0 <= i < |books| ==> books[i].status != Flag(true)
  }

  /** The mapped payload of `fetchBooks` holds labels only. */
  lemma FetchedBooksNoTrueFlag(data: seq<ServerBook>)
    ensures NoTrueFlag(FetchedBooks(data))
  {
  }

  /** Appending a record as the server returned it adds no `true` status. */
  lemma AppendedNoTrueFlag(books: seq<Book>, b: ServerBook)
    requires NoTrueFlag(books)
    ensures NoTrueFlag(books + [AsReturned(b)])
  {
  }

  /**
   * The "Toggle Status" button passes the row's own status, so the update it
   * makes always writes `false`: a list without `true` statuses keeps none,
   * and the clicked row ends with `false`, whatever its status was.
   */
  lemma TableToggleSetsFalse(books: seq<Book>, row: nat)
    requires row < |books| && NoTrueFlag(books)
    ensures NewStatus(books[row].status) == Flag(false)
    ensures NoTrueFlag(WithStatus(books, books[row].id, NewStatus(books[row].status)))
    ensures WithStatus(books, books[row].id, NewStatus(books[row].status))[row].status == Flag(false)
  {
  }

  /** Toggling between the two labels, as the button's caption promises. */
  function ToggledStatus(s: Status): (r: Status)
    ensures s == Label("Checked Out") ==> r == Label("Available")
    ensures s == Label("Available") ==> r == Label("Checked Out")
    ensures r == Label("Checked Out") || r == Label("Available")
  {
    if s == Label("Checked Out") then Label("Available") else Label("Checked Out")
  }

  /** The corrected toggle undoes itself on every label the mapping produces. */
  lemma ToggledStatusInvolutive(b: ServerBook)
    ensures ToggledStatus(ToggledStatus(FromServer(b).status)) == FromServer(b).status
    ensures ToggledStatus(FromServer(b).status) == FromServer(b.(isBorrowed := !b.isBorrowed)).status
  {
  }

  // ---------------------------------------------------------------------------
  // Rendering
  // ---------------------------------------------------------------------------

  /** A row of the table body. */
  datatype Row = LoadingRow | PlaceholderRow | BookRow(book: Book)

  /** One row per book, in list order. */
  function BookRows(books: seq<Book>): (rows: seq<Row>)
    ensures |rows| == |books|
    ensures forall i :: 0 <= i < |books| ==> rows[i] == BookRow(books[i])
  {
    if books == [] then [] else [BookRow(books[0])] + BookRows(books[1..])
  }

  /** The rows of `<TableBody>`. */
  function TableBodyRows(loading: bool, books: seq<Book>): (rows: seq<Row>)
    ensures loading ==> rows == [LoadingRow]
    ensures !loading && books == [] ==> rows == [PlaceholderRow]
    ensures !loading && books != [] ==> |rows| == |books|
    ensures !loading && books != [] ==> forall i :: 0 <= i < |books| ==> rows[i] == BookRow(books[i])
  {
    if loading then [LoadingRow]
    else if |books| == 0 then [PlaceholderRow]
    else BookRows(books)
  }

  /** Book rows are shown exactly when loading is over and the list is not empty. */
  lemma BookRowsShownIff(loading: bool, books: seq<Book>)
    ensures |TableBodyRows(loading, books)| >= 1
    ensures (exists i :: 0 <= i < |TableBodyRows(loading, books)| && TableBodyRows(loading, books)[i].BookRow?)
            <==> !loading && books != []
  {
  }

  /** `String.prototype.toUpperCase` on one character, for ASCII letters. */
  function UpperCase(c: char): (u: char)
    ensures 'a' <= c <= 'z' ==> 'A' <= u <= 'Z' && u as int == c as int - 32
    ensures !('a' <= c <= 'z') ==> u == c
  {
    if 'a' <= c <= 'z' then (c as int - 32) as char else c
  }

  /** `activeTab.charAt(0).toUpperCase() + activeTab.slice(1)`. */
  function CardTitle(tab: string): (title: string)
    ensures |title| == |tab|
    ensures tab != [] ==> title[0] == UpperCase(tab[0])
    ensures forall i :: 1 <= i < |tab| ==> title[i] == tab[i]
  {
    if tab == [] then [] else [UpperCase(tab[0])] + tab[1..]
  }

  /** The title of an already-capitalised tab is the tab itself. */
  lemma CardTitleIdempotent(tab: string)
    ensures CardTitle(CardTitle(tab)) == CardTitle(tab)
  {
  }

  /** The panels `renderContent` can produce. */
  datatype Content = BookManager | UsersPlaceholder | CatalogPlaceholder | ReportsPlaceholder

  /** `renderContent`: a panel for the four known tabs, `null` otherwise. */
  function RenderContent(tab: string): (r: Option<Content>)
    ensures r.Some? <==> tab in {"dashboard", "users", "catalog", "reports"}
    ensures r == Some(BookManager) <==> tab == "dashboard"
  {
    match tab
    case "dashboard" => Some(BookManager)
    case "users" => Some(UsersPlaceholder)
    case "catalog" => Some(CatalogPlaceholder)
    case "reports" => Some(ReportsPlaceholder)
    case _ => None
  }

  // ---------------------------------------------------------------------------
  // State cells and handlers
  // ---------------------------------------------------------------------------

  class LibraryDashboard {
    var books: seq<Book>
    var newBook: NewBook
    var loading: bool
    var user: Option<UserData>
    var activeTab: string

    /** No listed book holds the boolean `true` as its status. */
    ghost predicate Valid()
      reads this
    {
      NoTrueFlag(books)
    }

    /** The `useState` initial values. */
    constructor ()
      ensures Valid()
      ensures books == [] && newBook == NewBook("", "") && loading
      ensures user == None && activeTab == "dashboard"
    {
      books, newBook, loading := [], NewBook("", ""), true;
      user, activeTab := None, "dashboard";
    }

    /** What the page renders in the table body now. */
    function Rows(): (rows: seq<Row>)
      reads this
      ensures |rows| >= 1
      ensures loading ==> rows == [LoadingRow]
    {
      TableBodyRows(loading, books)
    }

    /** The first step of `loadBooks`, before its fetch settles. */
    method LoadBooksStart()
      requires Valid()
      modifies this
      ensures Valid()
      ensures loading
      ensures books == old(books) && newBook == old(newBook)
      ensures user == old(user) && activeTab == old(activeTab)
    {
      loading := true;
    }

    /** The rest of `loadBooks`, once its fetch has settled. */
    method LoadBooksSettled(response: Fetched<seq<ServerBook>>)
      requires Valid()
      modifies this
      ensures Valid()
      ensures !loading
      ensures books == if response.Fetched? then FetchedBooks(response.body) else old(books)
      ensures newBook == old(newBook) && user == old(user) && activeTab == old(activeTab)
    {
      match response
      case Fetched(data) =>
        FetchedBooksNoTrueFlag(data);
        books := FetchedBooks(data);
        loading := false;
      case FetchFailed =>
        loading := false;
    }

    /** `loadBooks` from start to finish. */
    method LoadBooks(response: Fetched<seq<ServerBook>>)
      requires Valid()
      modifies this
      ensures Valid()
      ensures !loading
      ensures books == if response.Fetched? then FetchedBooks(response.body) else old(books)
      ensures newBook == old(newBook) && user == old(user) && activeTab == old(activeTab)
    {
      LoadBooksStart();
      LoadBooksSettled(response);
    }

    /** `loadUserData`: the user cell changes only on success. */
    method LoadUserData(response: Fetched<ServerUser>)
      requires Valid()
      modifies this
      ensures Valid()
      ensures user == if response.Fetched? then Some(ToUserData(response.body)) else old(user)
      ensures books == old(books) && newBook == old(newBook)
      ensures loading == old(loading) && activeTab == old(activeTab)
    {
      if response.Fetched? {
        user := Some(ToUserData(response.body));
      }
    }

    /** The title input's `onChange`. */
    method SetNewBookTitle(value: string)
      requires Valid()
      modifies this
      ensures Valid()
      ensures newBook == old(newBook).(title := value)
      ensures books == old(books) && loading == old(loading)
      ensures user == old(user) && activeTab == old(activeTab)
    {
      newBook := newBook.(title := value);
    }

    /** The author input's `onChange`. */
    method SetNewBookAuthor(value: string)
      requires Valid()
      modifies this
      ensures Valid()
      ensures newBook == old(newBook).(author := value)
      ensures books == old(books) && loading == old(loading)
      ensures user == old(user) && activeTab == old(activeTab)
    {
      newBook := newBook.(author := value);
    }

    /** A sidebar button's `onClick`. */
    method SetActiveTab(tab: string)
      requires Valid()
      modifies this
      ensures Valid()
      ensures activeTab == tab
      ensures books == old(books) && newBook == old(newBook)
      ensures loading == old(loading) && user == old(user)
    {
      activeTab := tab;
    }

    /**
     * `handleAddBook`: posts the form and, on success, appends the returned
     * record and clears the form; a failed post rejects before any state
     * changes.
     */
    method HandleAddBook(response: Fetched<ServerBook>) returns (sent: NewBook)
      requires Valid()
      modifies this
      ensures Valid()
      ensures sent == old(newBook)
      ensures response.Fetched? ==> books == old(books) + [AsReturned(response.body)]
      ensures response.Fetched? ==> newBook == NewBook("", "")
      ensures response.FetchFailed? ==> books == old(books) && newBook == old(newBook)
      ensures loading == old(loading) && user == old(user) && activeTab == old(activeTab)
    {
      sent := newBook;
      if response.Fetched? {
        AppendedNoTrueFlag(books, response.body);
        books := books + [AsReturned(response.body)];
        newBook := NewBook("", "");
      }
    }

    /**
     * `handleUpdateStatus`: sends `currentStatus === true` and, on success,
     * writes it into the status of the books with that id.
     */
    method HandleUpdateStatus(id: int, currentStatus: Status, response: Fetched<ServerBook>)
      returns (sent: bool)
      requires Valid()
      modifies this
      ensures currentStatus != Flag(true) ==> Valid()
      ensures sent == (currentStatus == Flag(true))
      ensures books == if response.Fetched? then WithStatus(old(books), id, Flag(sent)) else old(books)
      ensures newBook == old(newBook) && loading == old(loading)
      ensures user == old(user) && activeTab == old(activeTab)
    {
      var newStatus := NewStatus(currentStatus);
      sent := newStatus.value;
      if response.Fetched? {
        books := WithStatus(books, id, newStatus);
      }
    }

    /** A click on the "Toggle Status" button of table row `row`. */
    method ClickToggle(row: nat, response: Fetched<ServerBook>)
      requires Valid()
      requires !loading && row < |books|
      modifies this
      ensures Valid()
      ensures response.Fetched? ==> books == WithStatus(old(books), old(books)[row].id, Flag(false))
      ensures response.Fetched? ==> books[row].status == Flag(false)
      ensures response.FetchFailed? ==> books == old(books)
      ensures newBook == old(newBook) && loading == old(loading)
      ensures user == old(user) && activeTab == old(activeTab)
    {
      TableToggleSetsFalse(books, row);
      var _ := HandleUpdateStatus(books[row].id, books[row].status, response);
    }

    /**
     * `deleteBook`: after a successful `DELETE` it starts `loadBooks`
     * again, whose fetch ends with `reload`; a failed delete changes nothing.
     */
    method DeleteBook(id: int, deleted: bool, reload: Fetched<seq<ServerBook>>) returns (r: Option<int>)
      requires Valid()
      modifies this
      ensures Valid()
      ensures r == if deleted then Some(id) else None
      ensures deleted ==> !loading
      ensures deleted ==> books == if reload.Fetched? then FetchedBooks(reload.body) else old(books)
      ensures !deleted ==> books == old(books) && loading == old(loading)
      ensures newBook == old(newBook) && user == old(user) && activeTab == old(activeTab)
    {
      if deleted {
        LoadBooks(reload);
        r := Some(id);
      } else {
        r := None;
      }
    }
  }
}
