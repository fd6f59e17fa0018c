/** The request guard shared by the service's POST endpoints, and the shape of
    their responses: a JSON body, or an HTTP error status with a message. */
module Http {

  /** What an endpoint hands back to the web framework. */
  datatype Response<T> = Ok(body: T) | Error(status: nat, message: string)

  const BadRequestStatus: nat := 400
  const NoImageMessage: string := "No image provided"

  /** The first check of every POST endpoint: the JSON body must carry an
      `image` field (its base64 payload); without one the endpoint answers
      400 "No image provided" and does nothing else. */
  function ImageField(data: map<string, string>): (r: Response<string>)
    ensures r.Ok? <==> "image" in data
    ensures r.Ok? ==> r.body == data["image"]
    ensures r.Error? ==> r.status == 400 && r.message == "No image provided"
  {
    if "image" in data then Ok(data["image"]) else Error(BadRequestStatus, NoImageMessage)
  }
}
