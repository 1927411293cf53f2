/** Clients of the two stores that rely on their contracts alone: the first
    user signs up as admin and a second admin is refused; an admin adds a
    sweet, any caller buys one, and only the admin restocks it. */
module Scenario {
  import opened Common
  import opened Jwt
  import opened SweetSchema
  import opened SweetRoutes
  import opened UserRoutes

  method OnlyOneAdminSignsUp(hash: string -> Digest, now: int)
  {
    var users := new UserStore(hash);
    var signup := users.Signup(SignupRequest(Some("A"), Some("a@x.com"), Some("1"), Some("secret1"),
                                             Some(AdminRole)), now);
    assert signup.Ok? && signup.value.token.payload == Claims(0, AdminRole);
    assert HasAdmin(users.users) by { assert users.users[0].role == AdminRole; }

    var again := users.Signup(SignupRequest(Some("B"), Some("b@x.com"), Some("2"), Some("secret2"),
                                            Some(AdminRole)), now);
    assert again == Error(Failure(StatusBadRequest, AdminExistsMessage)) && |users.users| == 1;
  }

  method AdminStocksCustomerBuys(admin: Claims, customer: Claims)
    requires admin.role == AdminRole && customer.role != AdminRole
  {
    var shop := new SweetStore();
    var ladoo := NewSweet(Some("Ladoo"), Some("Indian"), Some(5), Some(10), None, None);
    assert !MissingRequired(ladoo) && CheckNewSweet(ladoo).None?;
    var created := shop.Create(admin, ladoo);
    assert created.Ok? && created.value.sweet.quantity == 10;
    var id := created.value.id;

    var bought := shop.Purchase(id);
    assert bought.Ok? && bought.value.quantity == 9;

    var refused := shop.Restock(customer, id, Some(3));
    assert refused == Error(Forbidden) && shop.sweets[id].quantity == 9;

    var restocked := shop.Restock(admin, id, Some(3));
    assert restocked.Ok? && restocked.value.quantity == 12;
  }
}
