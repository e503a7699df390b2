/** The domain objects the mappers materialise and write. They are mutable objects: `create`
    assigns the id in place and the evaluation cascade re-points grades at their evaluation. */
module Business {
  import opened Store

  class City {
    var id: int
    var zipCode: string
    var cityName: string

    constructor (id: int, zipCode: string, cityName: string)
      ensures this.id == id && this.zipCode == zipCode && this.cityName == cityName
    {
      this.id, this.zipCode, this.cityName := id, zipCode, cityName;
    }
  }

  class RestaurantType {
    var id: int
    var typeLabel: string
    var description: string

    constructor (id: int, typeLabel: string, description: string)
      ensures this.id == id && this.typeLabel == typeLabel && this.description == description
    {
      this.id, this.typeLabel, this.description := id, typeLabel, description;
    }
  }

  class EvaluationCriteria {
    var id: int
    var name: string
    var description: string

    constructor (id: int, name: string, description: string)
      ensures this.id == id && this.name == name && this.description == description
    {
      this.id, this.name, this.description := id, name, description;
    }
  }

  /** A restaurant as its row describes it; the type and city are kept as their keys. */
  class Restaurant {
    var id: int
    var name: string
    var address: string
    var description: string
    var website: string
    var typeId: int
    var cityId: int

    constructor (id: int, row: RestaurantRow)
      ensures this.id == id && name == row.name && address == row.address
      ensures description == row.description && website == row.website
      ensures typeId == row.fkType && cityId == row.fkCity
    {
      this.id := id;
      name, address, description, website := row.name, row.address, row.description, row.website;
      typeId, cityId := row.fkType, row.fkCity;
    }
  }

  /** A like or dislike; `likeRestaurant` is a java.lang.Boolean and may be null (None). */
  class BasicEvaluation {
    var id: int
    var visitDate: Date
    var likeRestaurant: Option<bool>
    var ipAddress: string
    var restaurant: Restaurant?

    constructor (id: int, visitDate: Date, likeRestaurant: Option<bool>, ipAddress: string, restaurant: Restaurant?)
      ensures this.id == id && this.visitDate == visitDate && this.likeRestaurant == likeRestaurant
      ensures this.ipAddress == ipAddress && this.restaurant == restaurant
    {
      this.id, this.visitDate, this.likeRestaurant := id, visitDate, likeRestaurant;
      this.ipAddress, this.restaurant := ipAddress, restaurant;
    }
  }

  /** A comment with its set of grades (a java.util.Set, so its grades are distinct objects). */
  class CompleteEvaluation {
    var id: int
    var visitDate: Date
    var restaurant: Restaurant?
    var comment: string
    var username: string
    var grades: seq<Grade>

    constructor (id: int, visitDate: Date, restaurant: Restaurant?, comment: string, username: string)
      ensures this.id == id && this.visitDate == visitDate && this.restaurant == restaurant
      ensures this.comment == comment && this.username == username && grades == []
    {
      this.id, this.visitDate, this.restaurant := id, visitDate, restaurant;
      this.comment, this.username := comment, username;
      grades := [];
    }
  }

  class Grade {
    var id: int
    var grade: int
    var evaluation: CompleteEvaluation?
    var criteria: EvaluationCriteria?

    constructor (id: int, grade: int, evaluation: CompleteEvaluation?, criteria: EvaluationCriteria?)
      ensures this.id == id && this.grade == grade && this.evaluation == evaluation && this.criteria == criteria
    {
      this.id, this.grade, this.evaluation, this.criteria := id, grade, evaluation, criteria;
    }
  }
}
